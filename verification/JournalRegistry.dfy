/** Delivery of asynchronous mutation journals: normal deliveries and the shutdown recovery compete for the
    same backups. Each method below is one section under the registry's mutex, or one step a thread takes
    between two such sections; any interleaving of them is a run. */
module JournalRegistry {
  import opened Wrappers

  /** The backup of one asynchronous result, under the id it was retained with, or what the teardown of the
      engines left. */
  datatype Journal = Retained(id: nat, backup: seq<nat>) | Teardown(backup: seq<nat>)

  type Batches = seq<Journal>

  /** Ids strictly increase, and nothing is retained behind a teardown. */
  ghost predicate Ascending(journals: Batches) {
    forall i, j | 0 <= i < j < |journals| ::
      journals[i].Retained? && (journals[j].Retained? ==> journals[i].id < journals[j].id)
  }

  lemma AscendingTo(journals: Batches, id: nat, last: Journal)
    requires Ascending(journals) && forall j | j in journals :: j.Retained? && j.id < id
    requires last.Retained? ==> last.id == id
    ensures Ascending(journals + [last])
  {
    var longer := journals + [last];
    forall i, j | 0 <= i < j < |longer|
      ensures longer[i].Retained? && (longer[j].Retained? ==> longer[i].id < longer[j].id)
    {
      assert longer[i] == journals[i] && journals[i] in journals;
    }
  }

  function Torn(newer: seq<nat>): Batches {
    if newer == [] then [] else [Teardown(newer)]
  }

  /** The batches of journals, one journal after the other. */
  function Backups(journals: Batches): seq<nat>
    decreases |journals|
  {
    if journals == [] then [] else Backups(journals[..|journals| - 1]) + journals[|journals| - 1].backup
  }

  /** The batches of a journal come right behind those of the journals before it. */
  lemma {:induction false} BackupsInOrder(journals: Batches, i: nat)
    requires i < |journals|
    ensures Backups(journals[..i]) + journals[i].backup <= Backups(journals)
    ensures i + 1 == |journals| ==> Backups(journals) == Backups(journals[..i]) + journals[i].backup
    ensures Backups([]) == []
    decreases |journals|
  {
    if i + 1 < |journals| {
      var earlier := journals[..|journals| - 1];
      BackupsInOrder(earlier, i);
      assert earlier[..i] == journals[..i];
    }
  }

  lemma OneMoreBackup(journals: Batches, last: Journal)
    ensures Backups(journals + [last]) == Backups(journals) + last.backup
  {
    assert (journals + [last])[..|journals|] == journals;
  }

  /** A teardown has exactly the newer batches. */
  lemma TornBackups(journals: Batches, newer: seq<nat>)
    ensures Backups(journals + Torn(newer)) == Backups(journals) + newer
  {
    if newer == [] {
      assert journals + [] == journals;
    } else {
      OneMoreBackup(journals, Teardown(newer));
    }
  }

  function Least(keys: set<nat>): (least: nat)
    requires keys != {}
    ensures least in keys && forall k | k in keys :: least <= k
  {
    LeastExists(keys);
    var least :| least in keys && forall k | k in keys :: least <= k;
    least
  }

  lemma LeastExists(keys: set<nat>)
    requires keys != {}
    ensures exists least :: least in keys && forall k | k in keys :: least <= k
  {
    var some :| some in keys;
    LeastBelow(keys, some);
  }

  lemma {:induction false} LeastBelow(keys: set<nat>, some: nat)
    requires some in keys
    ensures exists least :: least in keys && forall k | k in keys :: least <= k
    decreases some
  {
    if smaller :| smaller in keys && smaller < some {
      LeastBelow(keys, smaller);
    }
  }

  /** The contents of an ordered map, in key order. */
  ghost function InKeyOrder(m: map<nat, Batches>): Batches
    decreases m.Keys
  {
    if m == map[] then [] else
      var first := Least(m.Keys);
      m[first] + InKeyOrder(m - {first})
  }

  lemma FirstOut(m: map<nat, Batches>)
    ensures InKeyOrder(map[]) == []
    ensures m != map[] ==> m.Keys != {} && InKeyOrder(m) == m[Least(m.Keys)] + InKeyOrder(m - {Least(m.Keys)})
  {
  }

  lemma OneLess(m: map<nat, Batches>)
    ensures m != map[] ==> m.Keys != {} && |m - {Least(m.Keys)}| + 1 == |m|
  {
    if m != map[] {
      var first := Least(m.Keys);
      assert m == (m - {first})[first := m[first]];
    }
  }

  lemma {:induction false} AppendLast(m: map<nat, Batches>, key: nat, batches: Batches)
    requires forall k | k in m :: k < key
    ensures InKeyOrder(m[key := batches]) == InKeyOrder(m) + batches
    decreases m.Keys
  {
    var grown := m[key := batches];
    if m == map[] {
      assert grown - {key} == map[];
    } else {
      var first := Least(m.Keys);
      assert grown.Keys == m.Keys + {key} && Least(grown.Keys) <= first;
      AppendLast(m - {first}, key, batches);
      assert grown - {first} == (m - {first})[key := batches];
    }
  }

  ghost function LineOf(handedOut: Batches, action: Batches, queued: map<nat, Batches>, recovering: Batches,
                        pending: map<nat, Batches>): Batches
  {
    handedOut + action + InKeyOrder(queued) + recovering + InKeyOrder(pending)
  }

  /** Claiming moves the boundary between pending and claimed, and nothing else. */
  lemma ClaimKeepsLine(handedOut: Batches, action: Batches, queued: map<nat, Batches>, pending: map<nat, Batches>,
                       rest: map<nat, Batches>, id: nat, claimed: Batches)
    requires InKeyOrder(pending) == claimed + InKeyOrder(rest) && forall q | q in queued :: q < id
    ensures LineOf(handedOut, action, queued[id := claimed], [], rest) == LineOf(handedOut, action, queued, [], pending)
    ensures queued == map[] && action == [] ==>
              LineOf(handedOut, claimed, queued, [], rest) == LineOf(handedOut, action, queued, [], pending)
  {
    hide InKeyOrder;
    FirstOut(queued);
    AppendLast(queued, id, claimed);
  }

  /** Collecting moves what is pending, with the newer batches behind it, to the recovery. */
  lemma CollectingKeepsLine(handedOut: Batches, action: Batches, queued: map<nat, Batches>, pending: map<nat, Batches>,
                            newer: Batches)
    ensures LineOf(handedOut, action, queued, InKeyOrder(pending) + newer, map[]) ==
            LineOf(handedOut, action, queued, [], pending) + newer
  {
    hide InKeyOrder;
    FirstOut(pending);
    var ahead := handedOut + action + InKeyOrder(queued);
    assert (ahead + [] + InKeyOrder(pending)) + newer == ahead + (InKeyOrder(pending) + newer) + [];
  }

  /** Running an action moves the boundary between handed out and claimed. */
  lemma RunningKeepsLine(handedOut: Batches, action: Batches, queued: map<nat, Batches>, recovering: Batches,
                         pending: map<nat, Batches>)
    ensures LineOf(handedOut + action, [], queued, recovering, pending) ==
            LineOf(handedOut, action, queued, recovering, pending)
  {
    hide InKeyOrder;
    assert (handedOut + action) + [] == handedOut + action;
  }

  /** Taking the queued action with the least id moves nothing in the line. */
  lemma TakingKeepsLine(handedOut: Batches, queued: map<nat, Batches>, recovering: Batches, pending: map<nat, Batches>)
    requires queued != map[]
    ensures queued.Keys != {}
    ensures var next := Least(queued.Keys);
            LineOf(handedOut, queued[next], queued - {next}, recovering, pending) ==
            LineOf(handedOut, [], queued, recovering, pending)
  {
    FirstOut(queued);
    hide InKeyOrder;
    assert handedOut + [] == handedOut;
  }

  lemma RecoveryKeepsLine(handedOut: Batches, recovered: Batches)
    ensures LineOf(handedOut + recovered, [], map[], [], map[]) == LineOf(handedOut, [], map[], recovered, map[])
  {
  }

  lemma HandedOutFirst(handedOut: Batches, action: Batches, queued: map<nat, Batches>, recovering: Batches,
                       pending: map<nat, Batches>)
    ensures handedOut <= LineOf(handedOut, action, queued, recovering, pending)
    ensures action == recovering == [] && queued == pending == map[] ==>
              LineOf(handedOut, action, queued, recovering, pending) == handedOut
  {
    hide InKeyOrder;
    FirstOut(queued);
    FirstOut(pending);
    var rest := action + InKeyOrder(queued) + recovering + InKeyOrder(pending);
    assert LineOf(handedOut, action, queued, recovering, pending) == handedOut + rest;
  }

  /** The journals of a map up to one id. */
  ghost function UpTo(m: map<nat, Batches>, id: nat): map<nat, Batches> {
    map k | k in m && k <= id :: m[k]
  }

  function Beyond(m: map<nat, Batches>, id: nat): map<nat, Batches> {
    map k | k in m && k > id :: m[k]
  }

  lemma BeyondIsLater(m: map<nat, Batches>, id: nat)
    ensures forall k :: k in Beyond(m, id) <==> k in m && id < k
    ensures forall k :: k in Beyond(m, id) ==> Beyond(m, id)[k] == m[k]
  {
  }

  /** Where the shutdown recovery is: waiting for active deliveries, holding what it collected, or done. */
  datatype Recovery = NotStarted | Awaiting | Holding(batches: Batches, deferred: bool) | Handed

  class DeferredMutationDeliveryRegistry {
    var nextId: nat
    var activeDeliveries: nat
    var recoveryStarted: bool
    var queuedDeliveryActions: map<nat, Batches>
    var recoveryAfterActiveDeliveries: Option<Batches>
    var pending: map<nat, Batches>
    // What threads hold between two sections.
    var reserved: Option<nat>
    var producerStopped: bool
    var action: Option<Batches>
    var recovery: Recovery
    var deferredRecovery: Option<Batches>
    // What consumers have been given, and what was retained, in order.
    ghost var handedOut: Batches
    ghost var retained: Batches

    ghost predicate Ordered()
      reads this
    {
      && (forall p | p in pending ::
            p < nextId && |pending[p]| == 1 && pending[p][0].Retained? && pending[p][0].id == p)
      && (forall q, p | q in queuedDeliveryActions && p in pending :: q < p)
      && (forall q | q in queuedDeliveryActions :: q < nextId)
      && (reserved.Some? ==> reserved.value < nextId && (forall p | p in pending :: p < reserved.value)
                             && forall q | q in queuedDeliveryActions :: q < reserved.value)
    }

    /** Ids increase along everything retained; the next one is larger still. */
    ghost predicate Numbered()
      reads this
    {
      && Ascending(retained)
      && (forall j | j in retained :: j.Retained? ==> j.id < nextId && (reserved.Some? ==> j.id < reserved.value))
      && (!recoveryStarted || recovery == Awaiting ==> forall j | j in retained :: j.Retained?)
    }

    ghost predicate Staged()
      reads this
    {
      && activeDeliveries <= 1
      && (activeDeliveries == 0 ==>
            queuedDeliveryActions == map[] && action == None && recoveryAfterActiveDeliveries == None)
      && (recoveryStarted <==> recovery != NotStarted) && (recoveryStarted ==> producerStopped)
      && (producerStopped ==> reserved == None)
      && (recovery.Holding? || recovery.Handed? ==> pending == map[])
      && (recovery.Holding? && !recovery.deferred ==> activeDeliveries == 0)
      && (recoveryAfterActiveDeliveries.Some? || deferredRecovery.Some? ==> recovery.Handed?)
      && (deferredRecovery.Some? ==> activeDeliveries == 0)
    }

    /** Everything retained, from what was handed out first to what is still pending. */
    ghost function Line(): Batches
      reads this
    {
      LineOf(handedOut, Held(action), queuedDeliveryActions, Recovering(), pending)
    }

    ghost function Recovering(): Batches
      reads this
    {
      (if recovery.Holding? then recovery.batches else []) + Held(recoveryAfterActiveDeliveries)
          + Held(deferredRecovery)
    }

    /** Nothing retained is lost, given twice, or out of order. */
    ghost predicate Valid()
      reads this
    {
      Ordered() && Numbered() && Staged() && Line() == retained
    }

    constructor ()
      ensures Valid() && handedOut == [] == retained && !recoveryStarted
    {
      nextId, activeDeliveries, recoveryStarted := 1, 0, false;
      queuedDeliveryActions, recoveryAfterActiveDeliveries, pending := map[], None, map[];
      reserved, producerStopped, action, recovery, deferredRecovery := None, false, None, NotStarted, None;
      handedOut, retained := [], [];
    }

    /** The one producing lane takes its next id. */
    method ReserveId()
      requires Valid() && !producerStopped && reserved == None
      modifies this`reserved, this`nextId
      ensures Valid() && reserved == Some(old(nextId)) && nextId == old(nextId) + 1
    {
      reserved := Some(nextId);
      nextId := nextId + 1;
    }

    method Insert(backup: seq<nat>)
      requires Valid() && reserved.Some?
      modifies this`pending, this`reserved, this`retained
      ensures Valid() && reserved == None
      ensures var journal := Retained(old(reserved).value, backup);
              pending == old(pending)[journal.id := [journal]] && retained == old(retained) + [journal]
      ensures Backups(retained) == Backups(old(retained)) + backup
    {
      hide InKeyOrder, Ascending, Backups;
      OneMoreBackup(retained, Retained(reserved.value, backup));
      var journal := Retained(reserved.value, backup);
      AppendLast(pending, reserved.value, [journal]);
      AscendingTo(retained, reserved.value, journal);
      pending := pending[reserved.value := [journal]];
      reserved := None;
      retained := retained + [journal];
    }

    /** The producer gives up between its two sections, or ends; shutdown joins it before recovering. */
    method StopProducer()
      requires Valid()
      modifies this`reserved, this`producerStopped
      ensures Valid() && producerStopped && reserved == None
    {
      reserved, producerStopped := None, true;
    }

    /** A consumer claims one journal, and with it every earlier one still pending. Its action runs now, or is
        queued behind the active delivery. */
    method ConsumeDelivery(id: nat) returns (accepted: bool)
      requires Valid()
      modifies this`pending, this`activeDeliveries, this`action, this`queuedDeliveryActions
      ensures Valid() && accepted == (!recoveryStarted && id in old(pending))
      ensures pending == if accepted then Beyond(old(pending), id) else old(pending)
      ensures activeDeliveries == if accepted then 1 else old(activeDeliveries)
      ensures var claimed := InKeyOrder(UpTo(old(pending), id));
              && action == (if accepted && old(activeDeliveries) == 0 then Some(claimed) else old(action))
              && queuedDeliveryActions == if accepted && old(activeDeliveries) > 0
                                          then old(queuedDeliveryActions)[id := claimed] else old(queuedDeliveryActions)
    {
      hide InKeyOrder, LineOf, Ascending, UpTo, Beyond;
      if recoveryStarted || id !in pending {
        return false;
      }
      assert Recovering() == [];
      var claimed, rest := TakeUpTo(pending, id);
      BeyondIsLater(pending, id);
      ClaimKeepsLine(handedOut, Held(action), queuedDeliveryActions, pending, rest, id, claimed);
      pending := rest;
      if activeDeliveries == 0 {
        activeDeliveries := 1;
        action := Some(claimed);
      } else {
        queuedDeliveryActions := queuedDeliveryActions[id := claimed];
      }
      accepted := true;
    }

    /** The active delivery runs its action outside the mutex. */
    method RunAction()
      requires Valid() && action.Some?
      modifies this`handedOut, this`action
      ensures Valid() && handedOut == old(handedOut) + old(action).value && action == None
    {
      hide Ascending, LineOf, InKeyOrder;
      RunningKeepsLine(handedOut, action.value, queuedDeliveryActions, Recovering(), pending);
      handedOut := handedOut + action.value;
      action := None;
    }

    /** After its action the active delivery takes the queued one with the least id, or ends and takes over a
        recovery that was deferred to it. */
    method FinishAction()
      requires Valid() && activeDeliveries > 0 && action == None
      modifies this`action, this`queuedDeliveryActions, this`activeDeliveries, this`deferredRecovery,
          this`recoveryAfterActiveDeliveries
      ensures Valid()
      ensures old(queuedDeliveryActions) != map[] ==>
                && action == Some(old(queuedDeliveryActions)[Least(old(queuedDeliveryActions).Keys)])
                && queuedDeliveryActions == old(queuedDeliveryActions) - {Least(old(queuedDeliveryActions).Keys)}
                && activeDeliveries == old(activeDeliveries)
                && deferredRecovery == old(deferredRecovery) && recoveryAfterActiveDeliveries ==
                      old(recoveryAfterActiveDeliveries)
      ensures old(queuedDeliveryActions) == map[] ==>
                && activeDeliveries == 0 && action == None && queuedDeliveryActions == map[]
                && deferredRecovery == old(recoveryAfterActiveDeliveries) && recoveryAfterActiveDeliveries == None
    {
      hide InKeyOrder, Ascending, LineOf;
      if queuedDeliveryActions != map[] {
        TakingKeepsLine(handedOut, queuedDeliveryActions, Recovering(), pending);
        var next := Least(queuedDeliveryActions.Keys);
        action := Some(queuedDeliveryActions[next]);
        queuedDeliveryActions := queuedDeliveryActions - {next};
      } else {
        activeDeliveries := 0;
        deferredRecovery := recoveryAfterActiveDeliveries;
        recoveryAfterActiveDeliveries := None;
        assert Recovering() == old(Recovering());
      }
    }

    method RunDeferredRecovery()
      requires Valid() && deferredRecovery.Some?
      modifies this`handedOut, this`deferredRecovery
      ensures Valid() && handedOut == old(handedOut) + old(deferredRecovery).value && deferredRecovery == None
    {
      hide Ascending, LineOf, InKeyOrder;
      RecoveryKeepsLine(handedOut, deferredRecovery.value);
      assert Recovering() == deferredRecovery.value;
      handedOut := handedOut + deferredRecovery.value;
      deferredRecovery := None;
    }

    /** The recovery closes the registry. On a thread that is itself delivering it does not wait: it collects
        at once what is pending, to be handed over later. */
    method BeginRecovery(onDeliveryThread: bool, newerBatches: seq<nat>)
      requires Valid() && producerStopped && !recoveryStarted && (onDeliveryThread ==> activeDeliveries > 0)
      modifies this`recoveryStarted, this`recovery, this`pending, this`retained
      ensures Valid() && recoveryStarted
      ensures recovery == if onDeliveryThread then Holding(InKeyOrder(old(pending)) + Torn(newerBatches), true)
              else Awaiting
      ensures pending == if onDeliveryThread then map[] else old(pending)
      ensures retained == if onDeliveryThread then old(retained) + Torn(newerBatches) else old(retained)
      ensures Backups(retained) == Backups(old(retained)) + if onDeliveryThread then newerBatches else []
    {
      hide InKeyOrder, Backups, Torn;
      recoveryStarted := true;
      if onDeliveryThread {
        recovery := Awaiting;
        Collect(newerBatches, true);
      } else {
        recovery := Awaiting;
      }
    }

    /** Once no delivery is active the waiting recovery collects what is left. */
    method CollectForRecovery(newerBatches: seq<nat>)
      requires Valid() && recovery == Awaiting && activeDeliveries == 0
      modifies this`recovery, this`pending, this`retained
      ensures Valid() && recovery == Holding(InKeyOrder(old(pending)) + Torn(newerBatches), false)
      ensures pending == map[] && retained == old(retained) + Torn(newerBatches)
      ensures Backups(retained) == Backups(old(retained)) + newerBatches
      ensures Backups(recovery.batches) == Backups(InKeyOrder(old(pending))) + newerBatches
    {
      Collect(newerBatches, false);
    }

    method Collect(newerBatches: seq<nat>, deferred: bool)
      requires Valid() && recovery == Awaiting && (!deferred ==> activeDeliveries == 0)
      modifies this`recovery, this`pending, this`retained
      ensures Valid() && recovery == Holding(InKeyOrder(old(pending)) + Torn(newerBatches), deferred)
      ensures pending == map[] && retained == old(retained) + Torn(newerBatches)
      ensures Backups(retained) == Backups(old(retained)) + newerBatches
      ensures Backups(recovery.batches) == Backups(InKeyOrder(old(pending))) + newerBatches
    {
      hide InKeyOrder, Backups;
      TornBackups(retained, newerBatches);
      TornBackups(InKeyOrder(pending), newerBatches);
      CollectingKeepsLine(handedOut, Held(action), queuedDeliveryActions, pending, Torn(newerBatches));
      hide LineOf;
      assert Recovering() == [];
      var batches := InKeyOrderOf(pending);
      recovery := Holding(batches + Torn(newerBatches), deferred);
      pending := map[];
      retained := retained + Torn(newerBatches);
      assert Recovering() == batches + Torn(newerBatches);
    }

    /** The recovery hands over what it collected, now or after the deliveries that are still active. */
    method HandOverRecovery()
      requires Valid() && recovery.Holding?
      modifies this`recoveryAfterActiveDeliveries, this`handedOut, this`recovery
      ensures Valid() && recovery == Handed
      ensures var batches, later := old(recovery).batches, old(recovery).deferred && activeDeliveries > 0;
              && recoveryAfterActiveDeliveries == (if later then Some(batches) else None)
              && handedOut == if later then old(handedOut) else old(handedOut) + batches
    {
      hide InKeyOrder, Ascending, LineOf;
      var batches := recovery.batches;
      RecoveryKeepsLine(handedOut, batches);
      assert Recovering() == batches;
      if recovery.deferred && activeDeliveries > 0 {
        recoveryAfterActiveDeliveries := Some(batches);
      } else {
        handedOut := handedOut + batches;
      }
      recovery := Handed;
      assert Recovering() == Held(recoveryAfterActiveDeliveries);
    }

    /** What was handed out is a prefix of what was retained; at rest it is all of it. */
    lemma GivenSoFar()
      requires Valid()
      ensures handedOut <= retained && (AtRest() ==> handedOut == retained)
    {
      hide InKeyOrder, LineOf, Ordered, Numbered;
      HandedOutFirst(handedOut, Held(action), queuedDeliveryActions, Recovering(), pending);
    }

    /** The recovery has handed over and no delivery, nor a recovery deferred to one, is left. */
    predicate AtRest()
      reads this
    {
      recovery.Handed? && activeDeliveries == 0 && deferredRecovery == None
    }

    /** The steps that threads still owe once the recovery has begun. */
    predicate Owed(e: Event)
      reads this
    {
      match e
      case ActionRuns => action.Some?
      case ActionEnds => activeDeliveries > 0 && action == None
      case DeferredRecoveryRuns => deferredRecovery.Some?
      case RecoveryCollects(_) => recovery == Awaiting && activeDeliveries == 0
      case RecoveryHandsOver => recovery.Holding?
      case _ => false
    }

    /** How many of them at most. */
    ghost function Measure(): nat
      reads this
    {
      2 * |queuedDeliveryActions| + activeDeliveries + One(action) + One(recoveryAfterActiveDeliveries)
      + One(deferredRecovery) + StepsOf(recovery)
    }

    lemma ClosedOnceBegun()
      requires Valid()
      ensures (recoveryStarted ==> producerStopped) && (producerStopped ==> reserved == None)
      ensures recoveryStarted <==> recovery != NotStarted
    {
    }

    method EndAction()
      requires Valid() && activeDeliveries > 0 && action == None
      modifies this`action, this`queuedDeliveryActions, this`activeDeliveries, this`deferredRecovery,
               this`recoveryAfterActiveDeliveries
      ensures Valid() && Measure() < old(Measure())
    {
      hide InKeyOrder, Valid;
      OneLess(queuedDeliveryActions);
      FinishAction();
    }

    /** What an event adds to the retained batches. */
    function Adds(e: Event): seq<nat>
      reads this
    {
      match e
      case Insertion(backup) => if reserved.Some? then backup else []
      case RecoveryBegins(_, newer) => if TearsDown(e) then newer else []
      case RecoveryCollects(newer) => if TearsDown(e) then newer else []
      case _ => []
    }

    /** The recovery collects what is left with this event. */
    predicate TearsDown(e: Event)
      reads this
    {
      || (e.RecoveryCollects? && Owed(e))
      || (e.RecoveryBegins? && e.onDeliveryThread && producerStopped && !recoveryStarted && activeDeliveries > 0)
    }

    predicate Collected()
      reads this
    {
      recovery.Holding? || recovery.Handed?
    }

    function Producing(): Producer
      reads this
    {
      Producer(reserved.Some?, producerStopped)
    }

    /** A thread takes a step it owes. */
    method Proceed(e: Event)
      requires Valid() && Owed(e)
      modifies this
      ensures Valid() && old(handedOut) <= handedOut && old(retained) <= retained
              && recoveryStarted == old(recoveryStarted)
      ensures Measure() < old(Measure())
      ensures Backups(retained) == Backups(old(retained)) + old(Adds(e)) && Producing() == old(Producing())
      ensures Collected() == (old(Collected()) || e.RecoveryCollects?)
    {
      hide InKeyOrder, Valid, Backups;
      match e
      case ActionRuns => RunAction();
      case ActionEnds => EndAction();
      case DeferredRecoveryRuns => RunDeferredRecovery();
      case RecoveryCollects(newer) => CollectForRecovery(newer);
      case RecoveryHandsOver => HandOverRecovery();
    }

    /** One event of a run; an event that cannot happen now is passed over. Once the recovery has begun, every
        event either is owed, and then fewer are, or changes nothing. */
    method Happen(e: Event)
      requires Valid()
      modifies this
      ensures Valid() && old(handedOut) <= handedOut && old(retained) <= retained
      ensures old(recoveryStarted) ==> recoveryStarted
      ensures old(recoveryStarted && Owed(e)) ==> Measure() < old(Measure())
      ensures old(recoveryStarted && !Owed(e)) ==> unchanged(this)
      ensures Backups(retained) == Backups(old(retained)) + old(Adds(e))
      ensures Producing() == Produced(old(Producing()), e) && Collected() == (old(Collected()) || old(TearsDown(e)))
    {
      hide InKeyOrder, UpTo, Beyond, Valid, Measure, Backups;
      ClosedOnceBegun();
      match e
      case Reserve => if !producerStopped && reserved == None { ReserveId(); }
      case Insertion(backup) => if reserved.Some? { Insert(backup); }
      case ProducerEnds => StopProducer();
      case Claim(id) => var _ := ConsumeDelivery(id);
      case RecoveryBegins(onDeliveryThread, newer) =>
        if producerStopped && !recoveryStarted && (onDeliveryThread ==> activeDeliveries > 0) {
          BeginRecovery(onDeliveryThread, newer);
        }
      case _ => if Owed(e) { Proceed(e); }
    }

    /** Every interleaving of producer, consumers and recovery: ids increase along what is retained, each
        retained journal goes to exactly one consumer, in that order, and at rest nothing is left over. The
        retained batches are those inserted, in order, followed by those of the teardown once it is collected. */
    method Run(events: seq<Event>) returns (ghost torn: seq<nat>)
      requires Valid()
      modifies this
      ensures Valid() && old(handedOut) <= handedOut <= retained && old(retained) <= retained && Ascending(retained)
      ensures activeDeliveries == 0 ==> queuedDeliveryActions == map[]
      ensures AtRest() ==> handedOut == retained
      ensures Backups(retained) == Backups(old(retained)) + Inserted(events, old(Producing())) + torn
      ensures if Collected() && !old(Collected()) then TornBy(events, torn) else torn == []
    {
      hide Valid, AtRest, Backups, Ascending, Adds, TearsDown, Collected, Producing;
      ghost var given, kept, start := handedOut, retained, Producing();
      torn := [];
      for i := 0 to |events|
        invariant Valid() && given <= handedOut && kept <= retained && Producing() == ProducedBy(events[..i], start)
        invariant old(Collected()) ==> Collected()
        invariant Backups(retained) == Backups(kept) + Inserted(events[..i], start) + torn
        invariant if Collected() && !old(Collected()) then TornBy(events[..i], torn) else torn == []
      {
        assert events[..i + 1][..i] == events[..i] && events[..i + 1][i] == events[i];
        WhatIsAdded(events[i]);
        ghost var tears, adds := TearsDown(events[i]), Adds(events[i]);
        Happen(events[i]);
        torn := if tears then adds else torn;
      }
      assert events[..|events|] == events;
      AtTheEnd();
    }

    /** An event inserts, tears down, or adds nothing; a collected registry takes neither. */
    lemma WhatIsAdded(e: Event)
      requires Valid()
      ensures TearsDown(e) ==> !Collected() && !Producing().holdsId && TornBy([e], Adds(e))
      ensures !TearsDown(e) ==> Adds(e) == if e.Insertion? && Producing().holdsId then e.backup else []
      ensures Collected() ==> !TearsDown(e) && Adds(e) == []
      ensures TearsDown(e) ==> !e.Insertion?
    {
      ClosedOnceBegun();
      assert e in [e];
    }

    lemma NoneHeld()
      requires Valid() && recoveryStarted
      ensures !Producing().holdsId
    {
    }

    lemma AtTheEnd()
      requires Valid()
      ensures handedOut <= retained && Ascending(retained) && (AtRest() ==> handedOut == retained)
      ensures activeDeliveries == 0 ==> queuedDeliveryActions == map[]
    {
      GivenSoFar();
    }

    /** Every kind of step gets its turn, among any others. */
    ghost predicate Fair(round: seq<Event>) {
      && ActionRuns in round && ActionEnds in round && DeferredRecoveryRuns in round && RecoveryHandsOver in round
      && exists newer :: RecoveryCollects(newer) in round
    }

    lemma NothingOwed(e: Event)
      requires Valid() && AtRest()
      ensures !Owed(e)
    {
    }

    lemma SomethingOwed(round: seq<Event>) returns (turn: nat)
      requires Valid() && recoveryStarted && !AtRest() && Fair(round)
      ensures turn < |round| && Owed(round[turn])
    {
      var e: Event;
      var newer :| RecoveryCollects(newer) in round;
      if {
        case recovery.Holding? => e := RecoveryHandsOver;
        case action.Some? => e := ActionRuns;
        case activeDeliveries > 0 && action == None => e := ActionEnds;
        case recovery == Awaiting && activeDeliveries == 0 => e := RecoveryCollects(newer);
        case deferredRecovery.Some? => e := DeferredRecoveryRuns;
      }
      turn :| turn < |round| && round[turn] == e;
    }

    method Round(round: seq<Event>) returns (ghost torn: seq<nat>)
      requires Valid() && recoveryStarted && Fair(round)
      modifies this
      ensures Valid() && recoveryStarted && old(handedOut) <= handedOut && old(retained) <= retained
      ensures if old(AtRest()) then AtRest() else Measure() < old(Measure())
      ensures Backups(retained) == Backups(old(retained)) + torn && (old(Collected()) ==> Collected())
      ensures if Collected() && !old(Collected()) then TornBy(round, torn) else torn == []
    {
      hide Valid, AtRest, Owed, Measure, Backups, Adds, TearsDown, Collected, Producing;
      ghost var given, kept, owed, before := handedOut, retained, Measure(), Collected();
      ghost var rested, turn := AtRest(), 0;
      torn := [];
      if !rested {
        turn := SomethingOwed(round);
      }
      for i := 0 to |round|
        invariant Valid() && recoveryStarted && given <= handedOut && kept <= retained
        invariant rested ==> AtRest()
        invariant !rested ==> Measure() < owed || (Measure() == owed && i <= turn < |round| && Owed(round[turn]))
        invariant Backups(retained) == Backups(kept) + torn && (before ==> Collected())
        invariant if Collected() && !before then TornBy(round[..i], torn) else torn == []
      {
        if rested {
          NothingOwed(round[i]);
        }
        assert round[..i + 1][i] == round[i];
        ClosedOnceBegun();
        WhatIsAdded(round[i]);
        NoneHeld();
        ghost var tears, adds := TearsDown(round[i]), Adds(round[i]);
        Happen(round[i]);
        torn := if tears then adds else torn;
      }
      assert round[..|round|] == round;
    }

    /** At least once: from any state after the recovery began, as many fair rounds as steps are owed bring the
        registry to rest, and then everything that was retained has been handed out: the batches retained
        before, in order, followed by those of the teardown that the recovery still had to collect. */
    method FairRun(rounds: seq<seq<Event>>) returns (ghost torn: seq<nat>)
      requires Valid() && recoveryStarted && |rounds| >= Measure() && forall i | 0 <= i < |rounds| :: Fair(rounds[i])
      modifies this
      ensures Valid() && AtRest() && handedOut == retained && old(retained) <= retained
      ensures Backups(handedOut) == Backups(old(retained)) + torn
      ensures if old(Collected()) then torn == [] else exists i | 0 <= i < |rounds| :: TornBy(rounds[i], torn)
    {
      ghost var kept, owed, before := retained, Measure(), Collected();
      torn := [];
      for i := 0 to |rounds|
        invariant Valid() && recoveryStarted && kept <= retained
        invariant AtRest() || Measure() + i <= owed
        invariant Backups(retained) == Backups(kept) + torn && (before ==> Collected())
        invariant if Collected() && !before then exists k | 0 <= k < i :: TornBy(rounds[k], torn) else torn == []
      {
        ghost var was := Collected();
        ghost var more := Round(rounds[i]);
        torn := if was then torn else more;
      }
      GivenSoFar();
    }
  }

  datatype Event = Reserve | Insertion(backup: seq<nat>) | ProducerEnds | Claim(id: nat) | ActionRuns | ActionEnds
                 | DeferredRecoveryRuns | RecoveryBegins(onDeliveryThread: bool, newer: seq<nat>)
                 | RecoveryCollects(newer: seq<nat>) | RecoveryHandsOver

  /** Whether the producing lane holds an id, and whether it has stopped. */
  datatype Producer = Producer(holdsId: bool, stopped: bool)

  function Produced(p: Producer, e: Event): Producer {
    match e
    case Reserve => p.(holdsId := !p.stopped)
    case Insertion(_) => p.(holdsId := false)
    case ProducerEnds => Producer(false, true)
    case _ => p
  }

  function ProducedBy(events: seq<Event>, p: Producer): Producer
    decreases |events|
  {
    if events == [] then p else Produced(ProducedBy(events[..|events| - 1], p), events[|events| - 1])
  }

  /** The batches that a run inserts, in order. */
  function Inserted(events: seq<Event>, p: Producer): seq<nat>
    decreases |events|
  {
    if events == [] then []
    else
      var earlier, last := events[..|events| - 1], events[|events| - 1];
      Inserted(earlier, p) + if last.Insertion? && ProducedBy(earlier, p).holdsId then last.backup else []
  }

  /** A recovery of the run brought these teardown batches. */
  ghost predicate TornBy(events: seq<Event>, torn: seq<nat>) {
    RecoveryCollects(torn) in events || RecoveryBegins(true, torn) in events
  }

  function StepsOf(recovery: Recovery): nat {
    match recovery
    case Awaiting => 4
    case Holding(_, _) => 3
    case _ => 0
  }

  function One<T>(held: Option<T>): nat {
    if held.Some? then 1 else 0
  }

  function Held(batches: Option<Batches>): Batches {
    if batches.Some? then batches.value else []
  }

  /** Takes the entries up to and including one key, in key order. */
  method TakeUpTo(m: map<nat, Batches>, id: nat) returns (taken: Batches, rest: map<nat, Batches>)
    requires id in m
    ensures InKeyOrder(m) == taken + InKeyOrder(rest)
    ensures taken == InKeyOrder(UpTo(m, id)) && rest == Beyond(m, id)
  {
    hide InKeyOrder;
    FirstOut(m);
    taken, rest := [], m;
    ghost var done: map<nat, Batches> := map[];
    while Least(rest.Keys) < id
      invariant id in rest && Cut(m, done, rest)
      invariant InKeyOrder(m) == taken + InKeyOrder(rest) && taken == InKeyOrder(done)
      decreases rest.Keys
    {
      taken, done, rest := TakeLeast(m, done, rest, taken);
    }
    taken, done, rest := TakeLeast(m, done, rest, taken);
    assert done == UpTo(m, id);
  }

  /** The lower keys of a map are done, the others are the rest. */
  ghost predicate Cut(m: map<nat, Batches>, done: map<nat, Batches>, rest: map<nat, Batches>) {
    && done.Keys + rest.Keys == m.Keys
    && (forall d | d in done :: done[d] == m[d]) && (forall r | r in rest :: rest[r] == m[r])
    && forall d, r | d in done && r in rest :: d < r
  }

  method TakeLeast(ghost m: map<nat, Batches>, ghost done: map<nat, Batches>, rest: map<nat, Batches>, taken: Batches)
    returns (more: Batches, ghost doneNow: map<nat, Batches>, left: map<nat, Batches>)
    requires Cut(m, done, rest) && rest != map[]
    requires InKeyOrder(m) == taken + InKeyOrder(rest) && taken == InKeyOrder(done)
    ensures rest.Keys != {} && left == rest - {Least(rest.Keys)} && Cut(m, doneNow, left)
    ensures InKeyOrder(m) == more + InKeyOrder(left) && more == InKeyOrder(doneNow)
  {
    hide InKeyOrder;
    FirstOut(rest);
    var first := Least(rest.Keys);
    AppendLast(done, first, rest[first]);
    more, doneNow, left := taken + rest[first], done[first := rest[first]], rest - {first};
  }

  /** Swapping the pending map out and walking it in key order. */
  method InKeyOrderOf(m: map<nat, Batches>) returns (batches: Batches)
    ensures batches == InKeyOrder(m)
  {
    batches := [];
    var rest := m;
    while rest != map[]
      invariant InKeyOrder(m) == batches + InKeyOrder(rest)
      decreases rest.Keys
    {
      var first := Least(rest.Keys);
      batches := batches + rest[first];
      rest := rest - {first};
    }
  }
}
