/** Batch dispatch: one call runs many recipients in order, may stop early, may suspend inside a recipient and
    may hand its remaining recipients back at a mutation boundary. The merge functions exist so that the
    pieces add up to the uninterrupted run. */
module Dispatch {
  import opened Wrappers

  type Bytes = seq<bv8>

  datatype Shape = BooleanAndFunction | StopOnFalse | FunctionHandled | StopOnTrue | FunctionCount | FunctionAny
      | BytesInOut | StringInOut

  /** The accumulated values of a result. */
  datatype Total = Total(boolResult: bool, hasFunction: bool, countResult: int, bytesResult: Bytes,
                         stringResult: string)

  /** One snapshot a recipient completed, and one deferred mutation batch it left behind. */
  datatype Snapshot = Snapshot(id: nat)
  datatype Batch = Batch(id: nat, requiresCausalOrdering: bool)

  /** What collecting recipients has gathered in a result. */
  datatype Collected = Collected(snapshot: Option<Snapshot>, presentationOnly: bool, batches: seq<Batch>)

  datatype Result = Result(total: Total, boolResultValid: bool, hasFunctionValid: bool, countResultValid: bool,
                           suspended: bool, suspendedEngineIndex: int,
                           recipientMutationBoundary: bool, nextEngineIndex: int, collected: Collected)

  /** What a recipient answers to an argument. */
  datatype Answer = Answer(hasFunction: bool, ok: bool, bytes: Bytes, text: string)

  /** A recipient as the dispatcher sees it: how it answers, whether it suspends before it answers, and
      what it leaves to collect. Only a function that exists can suspend. */
  datatype Engine = Engine(answer: (Bytes, string) -> Answer, suspends: (Bytes, string) -> bool,
                           batches: seq<Batch>, snapshot: Option<Snapshot>, presentationOnly: bool)

  type Engines = seq<Option<Engine>>

  /** One invocation of a recipient. */
  datatype Call = Call(engineIndex: nat, bytes: Bytes, text: string, snapshot: Option<Snapshot>)

  // ----- The uninterrupted run -----

  function Start(shape: Shape, bytesArg: Bytes, stringArg: string): Total {
    Total(shape.BooleanAndFunction? || shape.StopOnFalse?, false, 0,
          if shape.BytesInOut? then bytesArg else [], if shape.StringInOut? then stringArg else [])
  }

  /** The argument of the next recipient: in/out dispatches thread the previous output. */
  function Argument(shape: Shape, bytesArg: Bytes, stringArg: string, total: Total): (Bytes, string) {
    (if shape.BytesInOut? then total.bytesResult else bytesArg,
     if shape.StringInOut? then total.stringResult else stringArg)
  }

  /** What one answer adds to the values. */
  function Absorb(shape: Shape, total: Total, a: Answer): Total {
    match shape
    case BooleanAndFunction => total.(boolResult := total.boolResult && a.ok,
                                      hasFunction := total.hasFunction || a.hasFunction)
    case StopOnFalse => total.(boolResult := total.boolResult && (a.hasFunction ==> a.ok),
                               hasFunction := total.hasFunction || a.hasFunction)
    case FunctionHandled => total.(boolResult := total.boolResult || a.hasFunction,
                                   hasFunction := total.hasFunction || a.hasFunction)
    case StopOnTrue => total.(boolResult := total.boolResult || (a.hasFunction && a.ok),
                              hasFunction := total.hasFunction || a.hasFunction)
    case FunctionCount => total.(countResult := total.countResult + if a.hasFunction then 1 else 0)
    case FunctionAny => total.(hasFunction := total.hasFunction || a.hasFunction)
    case BytesInOut => total.(bytesResult := a.bytes)
    case StringInOut => total.(stringResult := a.text)
  }

  /** Whether the run ends with this answer. */
  predicate Decides(shape: Shape, a: Answer) {
    match shape
    case StopOnFalse => a.hasFunction && !a.ok
    case StopOnTrue => a.hasFunction && a.ok
    case FunctionHandled => a.hasFunction
    case _ => false
  }

  datatype Outcome = Outcome(total: Total, called: seq<nat>)

  /** The run that nothing interrupts, from one recipient on. */
  function Straight(shape: Shape, engines: Engines, bytesArg: Bytes, stringArg: string, i: nat, total: Total): Outcome
    requires i <= |engines|
    decreases |engines| - i
  {
    if i == |engines| then Outcome(total, [])
    else if engines[i].None? then Straight(shape, engines, bytesArg, stringArg, i + 1, total)
    else
      var arg := Argument(shape, bytesArg, stringArg, total);
      var a := engines[i].value.answer(arg.0, arg.1);
      var total' := Absorb(shape, total, a);
      if Decides(shape, a) then Outcome(total', [i])
      else Then([i], Straight(shape, engines, bytesArg, stringArg, i + 1, total'))
  }

  function Then(called: seq<nat>, rest: Outcome): Outcome {
    Outcome(rest.total, called + rest.called)
  }

  // ----- Collecting mutation boundaries -----

  function NothingCollected(): Collected {
    Collected(None, false, [])
  }

  predicate HasSemantic(batches: seq<Batch>) {
    exists b | b in batches :: b.requiresCausalOrdering
  }

  /** Whether a result published committed or deferred runtime mutations. */
  predicate PublishedMutationBoundary(c: Collected) {
    (c.snapshot.Some? && !c.presentationOnly) || HasSemantic(c.batches)
  }

  /** What one recipient published on its own account. */
  predicate Semantic(engine: Engine) {
    HasSemantic(engine.batches) || (engine.snapshot.Some? && !engine.presentationOnly)
  }

  function Collect(c: Collected, engine: Engine): Collected {
    var kept := if engine.snapshot.None? then c
                else c.(snapshot := engine.snapshot,
                        presentationOnly := engine.presentationOnly && !PublishedMutationBoundary(c)
                            && !HasSemantic(engine.batches));
    kept.(batches := c.batches + engine.batches)
  }

  function CollectAll(c: Collected, engines: seq<Engine>): Collected
    decreases |engines|
  {
    if engines == [] then c else CollectAll(Collect(c, engines[0]), engines[1..])
  }

  /** The boundary is sticky and exact: it is published if and only if some collected recipient was semantic. */
  lemma {:induction false} BoundaryIsExact(c: Collected, engines: seq<Engine>)
    ensures PublishedMutationBoundary(CollectAll(c, engines)) <==>
            PublishedMutationBoundary(c) || exists e | e in engines :: Semantic(e)
    decreases |engines|
  {
    if engines != [] {
      var first := engines[0];
      BoundaryIsExact(Collect(c, first), engines[1..]);
      assert forall b | b in c.batches + first.batches :: b in c.batches || b in first.batches;
      assert PublishedMutationBoundary(Collect(c, first)) <==> PublishedMutationBoundary(c) || Semantic(first) by {
        if b :| b in c.batches && b.requiresCausalOrdering {
          assert b in Collect(c, first).batches;
        }
        if b :| b in first.batches && b.requiresCausalOrdering {
          assert b in Collect(c, first).batches;
        }
      }
      assert engines == [first] + engines[1..];
    }
  }

  // ----- Results and their merges -----

  predicate StopsAfter(shape: Shape, r: Result) {
    match shape
    case StopOnFalse => r.boolResultValid && !r.total.boolResult
    case StopOnTrue => r.boolResultValid && r.total.boolResult
    case FunctionHandled => r.hasFunctionValid && r.total.hasFunction
    case _ => false
  }

  function Blank(): Result {
    Result(Total(false, false, 0, [], ""), false, false, false, false, -1, false, -1, NothingCollected())
  }

  /** The result a dispatch starts from. */
  function Initial(shape: Shape, bytesArg: Bytes, stringArg: string): Result {
    Blank().(total := Start(shape, bytesArg, stringArg),
             boolResultValid := shape.BooleanAndFunction? || shape.StopOnFalse? || shape.FunctionHandled?
                 || shape.StopOnTrue?,
             hasFunctionValid := shape.BooleanAndFunction? || shape.FunctionHandled? || shape.FunctionAny?,
             countResultValid := shape.FunctionCount?)
  }

  /** Merges one completed recipient into an aggregate. */
  function MergeRecipient(shape: Shape, aggregate: Result, recipient: Result): Result {
    var t, r := aggregate.total, recipient.total;
    var called := recipient.hasFunctionValid && r.hasFunction;
    match shape
    case BooleanAndFunction =>
      aggregate.(total := t.(boolResult := t.boolResult && r.boolResult, hasFunction := t.hasFunction || called),
                 boolResultValid := true, hasFunctionValid := true)
    case StopOnFalse =>
      aggregate.(total := t.(boolResult := if called && recipient.boolResultValid && !r.boolResult then false
                                           else t.boolResult,
                             hasFunction := t.hasFunction || called),
                 boolResultValid := true, hasFunctionValid := true)
    case FunctionHandled =>
      aggregate.(total := t.(boolResult := if called then true else t.boolResult,
                             hasFunction := t.hasFunction || called),
                 boolResultValid := true, hasFunctionValid := true)
    case StopOnTrue =>
      aggregate.(total := t.(boolResult := if called && recipient.boolResultValid && r.boolResult then true
                                           else t.boolResult,
                             hasFunction := t.hasFunction || called),
                 boolResultValid := true, hasFunctionValid := true)
    case FunctionCount =>
      aggregate.(total := t.(countResult := if recipient.countResultValid then t.countResult + r.countResult
                                            else if called then t.countResult + 1 else t.countResult),
                 countResultValid := true)
    case FunctionAny =>
      aggregate.(total := t.(hasFunction := t.hasFunction || called), hasFunctionValid := true)
    case BytesInOut => aggregate.(total := t.(bytesResult := r.bytesResult))
    case StringInOut => aggregate.(total := t.(stringResult := r.stringResult))
  }

  /** Merges the aggregate of a re-entered recipient range into what earlier recipients produced. */
  function MergeRange(shape: Shape, aggregate: Result, range: Result): Result {
    var t, r := aggregate.total, range.total;
    match shape
    case BooleanAndFunction | StopOnFalse =>
      aggregate.(total := t.(boolResult := t.boolResult && r.boolResult, hasFunction := t.hasFunction || r.hasFunction),
                 boolResultValid := range.boolResultValid, hasFunctionValid := range.hasFunctionValid)
    case FunctionHandled | StopOnTrue =>
      aggregate.(total := t.(boolResult := t.boolResult || r.boolResult, hasFunction := t.hasFunction || r.hasFunction),
                 boolResultValid := range.boolResultValid, hasFunctionValid := range.hasFunctionValid)
    case FunctionCount =>
      aggregate.(total := t.(countResult := t.countResult + r.countResult), countResultValid := range.countResultValid)
    case FunctionAny =>
      aggregate.(total := t.(hasFunction := t.hasFunction || r.hasFunction), hasFunctionValid := range.hasFunctionValid)
    case BytesInOut => aggregate.(total := t.(bytesResult := r.bytesResult))
    case StringInOut => aggregate.(total := t.(stringResult := r.stringResult))
  }

  /** How a recipient's answer is reported to the merge: each loop fills in what its kind reads. */
  function Reported(shape: Shape, a: Answer): Result {
    var r := Blank().(total := Blank().total.(hasFunction := a.hasFunction), hasFunctionValid := true);
    match shape
    case BooleanAndFunction | StopOnFalse | StopOnTrue => r.(total := r.total.(boolResult := a.ok),
                                                             boolResultValid := true)
    case _ => r
  }

  /** What a suspended recipient reports once it has resumed and completed: every field its mode fills. */
  function Resumed(a: Answer): Result {
    Blank().(total := Total(a.ok, a.hasFunction, 0, a.bytes, a.text), boolResultValid := true, hasFunctionValid := true)
  }

  /** Merging a report is absorbing the answer, whichever way the report came about. */
  lemma MergeAbsorbs(shape: Shape, aggregate: Result, a: Answer)
    ensures !shape.BytesInOut? && !shape.StringInOut? ==>
              MergeRecipient(shape, aggregate, Reported(shape, a)).total == Absorb(shape, aggregate.total, a)
    ensures MergeRecipient(shape, aggregate, Resumed(a)).total == Absorb(shape, aggregate.total, a)
    ensures a.hasFunction ==> (StopsAfter(shape, Resumed(a)) <==> Decides(shape, a))
  {
  }

  /** A range that starts afresh and is merged afterwards adds up to going on from the earlier values: for
      every shape the merge and the fresh start undo each other, whatever the recipients answer. */
  ghost function Joined(shape: Shape, earlier: Total, range: Total): Total {
    MergeRange(shape, Blank().(total := earlier), Blank().(total := range)).total
  }

  lemma {:induction false} RangesAddUp(shape: Shape, engines: Engines, bytesArg: Bytes, stringArg: string, i: nat,
                                       earlier: Total, range: Total)
    requires i <= |engines|
    ensures Straight(shape, engines, bytesArg, stringArg, i, Joined(shape, earlier, range)) ==
            var o := Straight(shape, engines, bytesArg, stringArg, i, range);
            Outcome(Joined(shape, earlier, o.total), o.called)
    decreases |engines| - i
  {
    if i < |engines| {
      if engines[i].None? {
        RangesAddUp(shape, engines, bytesArg, stringArg, i + 1, earlier, range);
      } else {
        var arg := Argument(shape, bytesArg, stringArg, range);
        var a := engines[i].value.answer(arg.0, arg.1);
        RangesAddUp(shape, engines, bytesArg, stringArg, i + 1, earlier, Absorb(shape, range, a));
      }
    }
  }

  /** A fresh start with the carried argument adds nothing. */
  lemma FreshStartIsNeutral(shape: Shape, earlier: Total, bytesArg: Bytes, stringArg: string)
    ensures var arg := Argument(shape, bytesArg, stringArg, earlier);
            Joined(shape, earlier, Start(shape, arg.0, arg.1)) == earlier
  {
  }

  // ----- The dispatch loop -----

  /** A function that does not exist cannot suspend. */
  ghost predicate Plausible(engines: Engines) {
    forall e | e in engines && e.Some? :: forall b, t :: e.value.suspends(b, t) ==> e.value.answer(b, t).hasFunction
  }

  function Indices(calls: seq<Call>): seq<nat> {
    seq(|calls|, k requires 0 <= k < |calls| => calls[k].engineIndex)
  }

  /** Which public values a result declares valid: all that its shape has, except while a recipient is suspended;
      the stop shapes claim a function only once somebody has been called. */
  ghost predicate Declared(shape: Shape, r: Result, called: bool) {
    match shape
    case BooleanAndFunction => r.boolResultValid == !r.suspended && r.hasFunctionValid == !r.suspended
    case StopOnFalse | StopOnTrue => r.boolResultValid == !r.suspended
        && (!r.suspended ==> r.hasFunctionValid == called)
    case FunctionHandled => r.boolResultValid == !r.suspended && (!r.suspended ==> r.hasFunctionValid)
    case FunctionCount => r.countResultValid == !r.suspended
    case FunctionAny => r.hasFunctionValid == !r.suspended
    case _ => true
  }

  /** One recipient: it is called, its boundary is collected, and it either suspends or is merged. */
  method CallRecipient(shape: Shape, before: Result, engineIndex: nat, engine: Engine, arg: (Bytes, string))
    returns (result: Result)
    requires !before.suspended && !before.recipientMutationBoundary
    ensures result.suspended == engine.suspends(arg.0, arg.1) && !result.recipientMutationBoundary
    ensures result.suspended ==> result.suspendedEngineIndex == engineIndex && result.total == before.total
    ensures result.suspended && !(shape.FunctionHandled? && before.total.hasFunction) ==> !StopsAfter(shape, result)
    ensures !result.suspended ==> result.total == Absorb(shape, before.total, engine.answer(arg.0, arg.1))
    ensures result.collected == Collect(before.collected, engine)
    ensures forall called: bool :: Declared(shape, before, called) ==> Declared(shape, result, true)
  {
    var a := engine.answer(arg.0, arg.1);
    result := before.(collected := Collect(before.collected, engine));
    if engine.suspends(arg.0, arg.1) {
      result := result.(suspended := true, suspendedEngineIndex := engineIndex);
      match shape {
        case BooleanAndFunction => result := result.(boolResultValid := false, hasFunctionValid := false);
        case StopOnFalse | StopOnTrue | FunctionHandled => result := result.(boolResultValid := false);
        case FunctionCount => result := result.(countResultValid := false);
        case FunctionAny => result := result.(hasFunctionValid := false);
        case _ =>
      }
    } else {
      match shape {
        case BytesInOut => result := result.(total := result.total.(bytesResult := a.bytes));
        case StringInOut => result := result.(total := result.total.(stringResult := a.text));
        case _ =>
          MergeAbsorbs(shape, result, a);
          result := MergeRecipient(shape, result, Reported(shape, a));
      }
    }
  }

  /** Whether the values so far already end the run; only the two shapes that look before each recipient. */
  predicate Settled(shape: Shape, total: Total) {
    (shape.FunctionHandled? || shape.StopOnTrue?) && total.boolResult
  }

  lemma DecidedBy(shape: Shape, total: Total, a: Answer)
    requires !Settled(shape, total) && (shape.StopOnFalse? ==> total.boolResult)
    requires shape.FunctionHandled? ==> total.boolResult == total.hasFunction
    ensures shape.FunctionHandled? ==> Absorb(shape, total, a).boolResult == Absorb(shape, total, a).hasFunction
    ensures Decides(shape, a) <==>
            Settled(shape, Absorb(shape, total, a)) || (shape.StopOnFalse? && !Absorb(shape, total, a).boolResult)
  {
  }

  lemma StartsUndecided(shape: Shape, bytesArg: Bytes, stringArg: string)
    ensures var t := Start(shape, bytesArg, stringArg);
            !Settled(shape, t) && (shape.StopOnFalse? ==> t.boolResult)
                && (shape.FunctionHandled? ==> t.boolResult == t.hasFunction)
  {
  }

  lemma StartsDeclared(shape: Shape, bytesArg: Bytes, stringArg: string)
    ensures Declared(shape, Initial(shape, bytesArg, stringArg), false)
  {
  }

  lemma StraightMoves(shape: Shape, engines: Engines, bytesArg: Bytes, stringArg: string, i: nat, total: Total)
    requires i <= |engines|
    ensures i == |engines| ==> Straight(shape, engines, bytesArg, stringArg, i, total) == Outcome(total, [])
    ensures i < |engines| && engines[i].None? ==>
              Straight(shape, engines, bytesArg, stringArg, i, total) ==
                  Straight(shape, engines, bytesArg, stringArg, i + 1, total)
  {
  }

  /** One recipient of the straight run, behind those already called. */
  lemma OneMore(shape: Shape, engines: Engines, bytesArg: Bytes, stringArg: string, i: nat, total: Total,
                called: seq<nat>)
    requires i < |engines| && engines[i].Some?
    ensures var arg := Argument(shape, bytesArg, stringArg, total);
            var a := engines[i].value.answer(arg.0, arg.1);
            Then(called, Straight(shape, engines, bytesArg, stringArg, i, total)) ==
            if Decides(shape, a) then Outcome(Absorb(shape, total, a), called + [i])
            else Then(called + [i], Straight(shape, engines, bytesArg, stringArg, i + 1, Absorb(shape, total, a)))
  {
    hide Absorb, Decides;
    var arg := Argument(shape, bytesArg, stringArg, total);
    var rest := Straight(shape, engines, bytesArg, stringArg, i + 1,
                         Absorb(shape, total, engines[i].value.answer(arg.0, arg.1)));
    assert called + ([i] + rest.called) == (called + [i]) + rest.called;
  }

  /** No answer so far has ended the run. */
  predicate Undecided(shape: Shape, r: Result) {
    && !r.suspended && !r.recipientMutationBoundary
    && (shape.StopOnFalse? ==> r.total.boolResult)
    && (shape.FunctionHandled? ==> r.total.boolResult == r.total.hasFunction)
  }

  /** One pass of the loop over a recipient that is there; done when the dispatch returns or breaks. */
  method Visit(shape: Shape, engines: Engines, engineIndex: nat, bytesArg: Bytes, stringArg: string, before: Result,
               earlier: seq<Call>, callbackSnapshot: Option<Snapshot>)
    returns (result: Result, calls: seq<Call>, done: bool)
    requires engineIndex < |engines| && engines[engineIndex].Some?
    requires Undecided(shape, before) && !Settled(shape, before.total)
    ensures var rest := Then(Indices(earlier), Straight(shape, engines, bytesArg, stringArg, engineIndex,
                                                        before.total));
            if done then Remains(shape, engines, bytesArg, stringArg, result, Indices(calls)) == Some(rest)
            else Undecided(shape, result) && rest == Expected(shape, engines, bytesArg, stringArg, engineIndex + 1,
                                                              result.total, calls)
    ensures Interrupted(shape, engines, bytesArg, stringArg, result, engineIndex)
    ensures result.suspended || result.recipientMutationBoundary ==> done
    ensures result.recipientMutationBoundary ==> result.nextEngineIndex == engineIndex + 1
    ensures result.suspended ==> result.suspendedEngineIndex == engineIndex
    ensures |calls| == |earlier| + 1 && calls[..|earlier|] == earlier
            && result.collected == Collect(before.collected, engines[engineIndex].value)
    ensures calls[|earlier|].engineIndex == engineIndex && calls[|earlier|].snapshot == callbackSnapshot
    ensures Declared(shape, before, earlier != []) ==> Declared(shape, result, true)
  {
    hide Absorb, Decides, Semantic, Collect, Straight, Start;
    var engine := engines[engineIndex].value;
    var arg := Argument(shape, bytesArg, stringArg, before.total);
    result := CallRecipient(shape, before, engineIndex, engine, arg);
    calls := earlier + [Call(engineIndex, arg.0, arg.1, callbackSnapshot)];
    assert Indices(calls) == Indices(earlier) + [engineIndex] && Indices(calls)[..|earlier|] == Indices(earlier);
    if result.suspended {
      return result, calls, true;
    }
    DecidedBy(shape, before.total, engine.answer(arg.0, arg.1));
    OneMore(shape, engines, bytesArg, stringArg, engineIndex, before.total, Indices(earlier));
    done := shape.StopOnFalse? && !result.total.boolResult;
    if !done && !Settled(shape, result.total) && Semantic(engine) && engineIndex + 1 < |engines| {
      result := result.(recipientMutationBoundary := true, nextEngineIndex := engineIndex + 1);
      done := true;
    }
  }

  /** What a dispatch still owes when it has reached a place undecided, or settled. */
  ghost function Expected(shape: Shape, engines: Engines, bytesArg: Bytes, stringArg: string, i: nat, total: Total,
                          calls: seq<Call>): Outcome
    requires i <= |engines|
  {
    if Settled(shape, total) then Outcome(total, Indices(calls))
    else Then(Indices(calls), Straight(shape, engines, bytesArg, stringArg, i, total))
  }

  lemma ExpectedMoves(shape: Shape, engines: Engines, bytesArg: Bytes, stringArg: string, i: nat, total: Total,
                      calls: seq<Call>)
    requires i <= |engines|
    ensures var rest := Expected(shape, engines, bytesArg, stringArg, i, total, calls);
            && (i == |engines| || Settled(shape, total) ==> rest == Outcome(total, Indices(calls)))
            && (!Settled(shape, total) ==>
                  rest == Then(Indices(calls), Straight(shape, engines, bytesArg, stringArg, i, total)))
            && (!Settled(shape, total) && calls == [] ==>
                  rest == Straight(shape, engines, bytesArg, stringArg, i, total))
            && (!Settled(shape, total) && i < |engines| && engines[i].None? ==>
                  rest == Expected(shape, engines, bytesArg, stringArg, i + 1, total, calls))
  {
    StraightMoves(shape, engines, bytesArg, stringArg, i, total);
    hide Straight;
    assert Indices(calls) + [] == Indices(calls);
    assert calls == [] ==> Indices(calls) == [];
  }

  lemma NothingRemains(shape: Shape, engines: Engines, bytesArg: Bytes, stringArg: string, result: Result,
                       called: seq<nat>)
    requires Undecided(shape, result)
    ensures Remains(shape, engines, bytesArg, stringArg, result, called) == Some(Outcome(result.total, called))
  {
  }

  /** std::clamp(index, 0, size) */
  function Clamped(index: int, size: nat): (clamped: nat)
    ensures clamped <= size && (0 <= index <= size ==> clamped == index)
    ensures (index < 0 ==> clamped == 0) && (size < index ==> clamped == size)
  {
    if index < 0 then 0 else if index > size then size else index
  }

  /** One dispatch over the recipients from firstEngineIndex on. What remains to be done when it returns,
      if anything, is the straight run from the place and the values it returns. */
  method DispatchBatch(shape: Shape, engines: Engines, firstEngineIndex: int, bytesArg: Bytes, stringArg: string,
                       callbackSnapshotArg: Option<Snapshot>)
    returns (result: Result, calls: seq<Call>)
    ensures Remains(shape, engines, bytesArg, stringArg, result, Indices(calls)) ==
            Some(Straight(shape, engines, bytesArg, stringArg, Clamped(firstEngineIndex, |engines|),
                          Start(shape, bytesArg, stringArg)))
    ensures Interrupted(shape, engines, bytesArg, stringArg, result, firstEngineIndex)
    ensures Declared(shape, result, calls != [])
            && (result.suspended || result.recipientMutationBoundary ==> calls != [])
    ensures var start := Clamped(firstEngineIndex, |engines|);
            start < |engines| && engines[start].Some? ==> calls != []
    ensures GivenLatest(calls, callbackSnapshotArg, engines)
    ensures forall k | 0 <= k < |calls| :: calls[k].engineIndex < |engines| && engines[calls[k].engineIndex].Some?
    ensures Gathered(result.collected, seq(|calls|, k requires 0 <= k < |calls| => engines[calls[k].engineIndex].value))
  {
    hide Straight, Start, StopsAfter, WasSuspended, CalledEngines, LatestSnapshot, CollectAll, Collect, Gathered,
         PublishedMutationBoundary, Declared, Interrupted, Expected, Then, Remains;
    NothingCalled(engines, callbackSnapshotArg);
    result := Initial(shape, bytesArg, stringArg);
    calls := [];
    StartsUndecided(shape, bytesArg, stringArg);
    StartsDeclared(shape, bytesArg, stringArg);
    StartsUninterrupted(shape, engines, bytesArg, stringArg, firstEngineIndex);
    var callbackSnapshot := callbackSnapshotArg;
    var start := Clamped(firstEngineIndex, |engines|);
    var engineIndex := start;
    ghost var all := Straight(shape, engines, bytesArg, stringArg, engineIndex, Start(shape, bytesArg, stringArg));
    ExpectedMoves(shape, engines, bytesArg, stringArg, engineIndex, result.total, calls);
    var done := false;
    while engineIndex < |engines| && !done
      invariant start <= engineIndex <= |engines|
      invariant !done ==> Undecided(shape, result) && all == Expected(shape, engines, bytesArg, stringArg,
                                                                      engineIndex, result.total, calls)
      invariant done ==> Remains(shape, engines, bytesArg, stringArg, result, Indices(calls)) == Some(all)
      invariant Interrupted(shape, engines, bytesArg, stringArg, result, firstEngineIndex)
      invariant Declared(shape, result, calls != [])
                && (result.suspended || result.recipientMutationBoundary ==> calls != [])
      invariant engineIndex > start && engines[start].Some? ==> calls != []
      invariant calls == [] ==> !Settled(shape, result.total) && !done
      invariant GivenLatest(calls, callbackSnapshotArg, engines)
      invariant callbackSnapshot == LatestSnapshot(callbackSnapshotArg, CalledEngines(engines, calls))
      invariant result.collected == CollectAll(NothingCollected(), CalledEngines(engines, calls))
      invariant forall k | 0 <= k < |calls| :: calls[k].engineIndex < |engines| && engines[calls[k].engineIndex].Some?
      decreases |engines| - engineIndex, !done
    {
      if Settled(shape, result.total) {
        break;
      }
      ExpectedMoves(shape, engines, bytesArg, stringArg, engineIndex, result.total, calls);
      if engines[engineIndex].Some? {
        ghost var earlier := calls;
        result, calls, done := Visit(shape, engines, engineIndex, bytesArg, stringArg, result, calls, callbackSnapshot);
        InterruptedFrom(shape, engines, bytesArg, stringArg, result, firstEngineIndex, engineIndex);
        CalledOneMore(engines, earlier, calls, callbackSnapshotArg);
        if engines[engineIndex].value.snapshot.Some? {
          callbackSnapshot := engines[engineIndex].value.snapshot;
        }
      }
      engineIndex := engineIndex + 1;
    }
    if !done {
      ExpectedMoves(shape, engines, bytesArg, stringArg, engineIndex, result.total, calls);
      NothingRemains(shape, engines, bytesArg, stringArg, result, Indices(calls));
    }
    CalledOnesAre(engines, calls);
    CollectedMeans(CalledEngines(engines, calls));
    assert CalledEngines(engines, calls) ==
           seq(|calls|, k requires 0 <= k < |calls| => engines[calls[k].engineIndex].value);
  }

  // ----- What recipients are given, and what is collected from them -----

  /** The recipients that were called, in order. */
  ghost function CalledEngines(engines: Engines, calls: seq<Call>): seq<Engine>
    decreases |calls|
  {
    if calls == [] then []
    else
      var i := calls[|calls| - 1].engineIndex;
      CalledEngines(engines, calls[..|calls| - 1]) + if i < |engines| && engines[i].Some? then [engines[i].value]
          else []
  }

  /** The snapshot the next recipient is given: the last one completed, else the request's. */
  ghost function LatestSnapshot(snapshotArg: Option<Snapshot>, engines: seq<Engine>): Option<Snapshot>
    decreases |engines|
  {
    if engines == [] then snapshotArg
    else if engines[|engines| - 1].snapshot.Some? then engines[|engines| - 1].snapshot
    else LatestSnapshot(snapshotArg, engines[..|engines| - 1])
  }

  /** Each recipient was given the latest completed snapshot. */
  ghost predicate GivenLatest(calls: seq<Call>, snapshotArg: Option<Snapshot>, engines: Engines) {
    forall k | 0 <= k < |calls| :: calls[k].snapshot == LatestSnapshot(snapshotArg, CalledEngines(engines, calls[..k]))
  }

  /** The batches of recipients, one recipient after the other. */
  ghost function BatchesOf(engines: seq<Engine>): seq<Batch>
    decreases |engines|
  {
    if engines == [] then [] else BatchesOf(engines[..|engines| - 1]) + engines[|engines| - 1].batches
  }

  /** The batches of a recipient come right behind those of the recipients before it. */
  lemma {:induction false} BatchesInOrder(engines: seq<Engine>, i: nat)
    requires i < |engines|
    ensures BatchesOf(engines[..i]) + engines[i].batches <= BatchesOf(engines)
    ensures i + 1 == |engines| ==> BatchesOf(engines) == BatchesOf(engines[..i]) + engines[i].batches
    ensures BatchesOf([]) == []
    decreases |engines|
  {
    if i + 1 < |engines| {
      var earlier := engines[..|engines| - 1];
      BatchesInOrder(earlier, i);
      assert earlier[..i] == engines[..i];
    }
  }

  /** The last recipient that completed a snapshot. */
  ghost predicate LastSnapshotAt(called: seq<Engine>, j: int) {
    0 <= j < |called| && called[j].snapshot.Some? && forall i | j < i < |called| :: called[i].snapshot.None?
  }

  ghost predicate NoSnapshot(called: seq<Engine>) {
    forall e | e in called :: e.snapshot.None?
  }

  ghost predicate NoneSemantic(engines: seq<Engine>) {
    forall e | e in engines :: !Semantic(e)
  }

  /** What a result has gathered from the recipients that were called, in call order: their batches, the
      snapshot completed last, whether all that was published up to that snapshot was presentation, and
      whether anything semantic was. */
  ghost predicate Gathered(c: Collected, called: seq<Engine>) {
    && c.batches == BatchesOf(called)
    && (NoSnapshot(called) ==> c.snapshot.None? && !c.presentationOnly)
    && (forall j | LastSnapshotAt(called, j) ::
          c.snapshot == called[j].snapshot && (c.presentationOnly <==> NoneSemantic(called[..j + 1])))
    && (PublishedMutationBoundary(c) <==> !NoneSemantic(called))
  }

  lemma {:induction false} CollectedMeans(called: seq<Engine>)
    ensures Gathered(CollectAll(NothingCollected(), called), called)
    decreases |called|
  {
    if called == [] {
      NothingCalled([], None);
    } else {
      hide CollectAll, Collect, Gathered;
      var earlier, last := called[..|called| - 1], called[|called| - 1];
      CollectedMeans(earlier);
      assert called == earlier + [last];
      CollectLast(NothingCollected(), earlier, last);
      OneMoreGathered(CollectAll(NothingCollected(), earlier), earlier, last);
    }
  }

  lemma OneMoreGathered(c: Collected, earlier: seq<Engine>, last: Engine)
    requires Gathered(c, earlier)
    ensures Gathered(Collect(c, last), earlier + [last])
  {
    CollectOnce(c, last);
    BoundaryIsExact(c, [last]);
    CollectOne(c, last);
    hide Semantic, Collect, PublishedMutationBoundary;
    var called := earlier + [last];
    assert called[..|earlier|] == earlier && called[..|called|] == called && last in [last];
    assert last in called && forall e | e in earlier :: e in called;
    if last.snapshot.Some? {
      assert LastSnapshotAt(called, |earlier|);
      assert forall j | LastSnapshotAt(called, j) :: j == |earlier|;
    } else {
      forall j
        ensures LastSnapshotAt(called, j) <==> LastSnapshotAt(earlier, j)
      {
      }
      assert forall j | LastSnapshotAt(earlier, j) :: called[..j + 1] == earlier[..j + 1];
    }
  }

  lemma CollectOne(c: Collected, last: Engine)
    ensures CollectAll(c, [last]) == Collect(c, last)
  {
    assert [last][1..] == [];
  }

  /** Semantic is a batch that asks for causal order, or a completed snapshot of more than presentation. */
  lemma SemanticMeans(engine: Engine, c: Collected)
    ensures Semantic(engine) <==> (exists k | 0 <= k < |engine.batches| :: engine.batches[k].requiresCausalOrdering)
                                  || (engine.snapshot.Some? && !engine.presentationOnly)
    ensures PublishedMutationBoundary(c) <==> (exists k | 0 <= k < |c.batches| :: c.batches[k].requiresCausalOrdering)
                                              || (c.snapshot.Some? && !c.presentationOnly)
  {
    if k :| 0 <= k < |engine.batches| && engine.batches[k].requiresCausalOrdering {
      assert engine.batches[k] in engine.batches;
    }
    if k :| 0 <= k < |c.batches| && c.batches[k].requiresCausalOrdering {
      assert c.batches[k] in c.batches;
    }
  }

  /** The latest snapshot is the one completed last, else the one of the request. */
  lemma {:induction false} LatestMeans(snapshotArg: Option<Snapshot>, called: seq<Engine>)
    ensures NoSnapshot(called) ==> LatestSnapshot(snapshotArg, called) == snapshotArg
    ensures forall j | LastSnapshotAt(called, j) :: LatestSnapshot(snapshotArg, called) == called[j].snapshot
    decreases |called|
  {
    if called != [] && called[|called| - 1].snapshot.None? {
      var earlier := called[..|called| - 1];
      LatestMeans(snapshotArg, earlier);
      assert NoSnapshot(called) ==> NoSnapshot(earlier);
      assert forall j | LastSnapshotAt(called, j) :: LastSnapshotAt(earlier, j);
    }
  }

  lemma CollectOnce(c: Collected, last: Engine)
    ensures var next := Collect(c, last);
            && next.batches == c.batches + last.batches
            && (last.snapshot.None? ==> next.snapshot == c.snapshot && next.presentationOnly == c.presentationOnly)
            && (last.snapshot.Some? ==>
                  && next.snapshot == last.snapshot
                  && (next.presentationOnly <==> !PublishedMutationBoundary(c) && !Semantic(last)))
  {
  }

  /** Call by call, the recipients that were called. */
  lemma {:induction false} CalledOnesAre(engines: Engines, calls: seq<Call>)
    requires forall k | 0 <= k < |calls| :: calls[k].engineIndex < |engines| && engines[calls[k].engineIndex].Some?
    ensures |CalledEngines(engines, calls)| == |calls|
    ensures forall k | 0 <= k < |calls| :: CalledEngines(engines, calls)[k] == engines[calls[k].engineIndex].value
    decreases |calls|
  {
    if calls != [] {
      var earlier := calls[..|calls| - 1];
      CalledOnesAre(engines, earlier);
      assert CalledEngines(engines, calls) ==
             CalledEngines(engines, earlier) + [engines[calls[|calls| - 1].engineIndex].value];
      hide CalledEngines;
      assert forall k | 0 <= k < |earlier| :: earlier[k] == calls[k];
    }
  }

  lemma NothingCalled(engines: Engines, snapshotArg: Option<Snapshot>)
    ensures CalledEngines(engines, []) == [] && LatestSnapshot(snapshotArg, []) == snapshotArg
    ensures CollectAll(NothingCollected(), []) == NothingCollected()
  {
  }

  lemma CollectLast(c: Collected, engines: seq<Engine>, last: Engine)
    ensures CollectAll(c, engines + [last]) == Collect(CollectAll(c, engines), last)
    decreases |engines|
  {
    if engines != [] {
      assert (engines + [last])[1..] == engines[1..] + [last];
      CollectLast(Collect(c, engines[0]), engines[1..], last);
    }
  }

  lemma CalledOneMore(engines: Engines, earlier: seq<Call>, calls: seq<Call>, snapshotArg: Option<Snapshot>)
    requires |calls| == |earlier| + 1 && calls[..|earlier|] == earlier && GivenLatest(earlier, snapshotArg, engines)
    requires var i := calls[|earlier|].engineIndex; i < |engines| && engines[i].Some?
    requires calls[|earlier|].snapshot == LatestSnapshot(snapshotArg, CalledEngines(engines, earlier))
    ensures GivenLatest(calls, snapshotArg, engines)
    ensures var engine := engines[calls[|earlier|].engineIndex].value;
            && CalledEngines(engines, calls) == CalledEngines(engines, earlier) + [engine]
            && CollectAll(NothingCollected(), CalledEngines(engines, calls)) ==
               Collect(CollectAll(NothingCollected(), CalledEngines(engines, earlier)), engine)
            && LatestSnapshot(snapshotArg, CalledEngines(engines, calls)) ==
               if engine.snapshot.Some? then engine.snapshot
               else LatestSnapshot(snapshotArg, CalledEngines(engines, earlier))
  {
    hide Collect, CollectAll, GivenLatest;
    var engine := engines[calls[|earlier|].engineIndex].value;
    CollectLast(NothingCollected(), CalledEngines(engines, earlier), engine);
    assert (CalledEngines(engines, earlier) + [engine])[..|CalledEngines(engines, earlier)|] ==
           CalledEngines(engines, earlier);
    GivenOneMore(engines, earlier, calls, snapshotArg);
  }

  lemma GivenOneMore(engines: Engines, earlier: seq<Call>, calls: seq<Call>, snapshotArg: Option<Snapshot>)
    requires |calls| == |earlier| + 1 && calls[..|earlier|] == earlier && GivenLatest(earlier, snapshotArg, engines)
    requires calls[|earlier|].snapshot == LatestSnapshot(snapshotArg, CalledEngines(engines, earlier))
    ensures GivenLatest(calls, snapshotArg, engines)
  {
    hide LatestSnapshot, CalledEngines;
    forall k | 0 <= k < |calls|
      ensures calls[k].snapshot == LatestSnapshot(snapshotArg, CalledEngines(engines, calls[..k]))
    {
      if k < |earlier| {
        assert earlier[k] == calls[k] && earlier[..k] == calls[..k];
      }
    }
  }

  /** Where a dispatch stopped before its end, if it did: behind the place it began, with no deciding answer. */
  ghost predicate Interrupted(shape: Shape, engines: Engines, bytesArg: Bytes, stringArg: string, result: Result,
                              first: int)
  {
    && (result.suspended || result.recipientMutationBoundary ==> !StopsAfter(shape, result))
    && (result.recipientMutationBoundary ==> !result.suspended && first < result.nextEngineIndex < |engines|)
    && (result.suspended ==>
          result.suspendedEngineIndex >= first && WasSuspended(shape, engines, bytesArg, stringArg, result))
  }

  lemma InterruptedFrom(shape: Shape, engines: Engines, bytesArg: Bytes, stringArg: string, result: Result, first: int,
                        later: int)
    requires Interrupted(shape, engines, bytesArg, stringArg, result, later) && first <= later
    ensures Interrupted(shape, engines, bytesArg, stringArg, result, first)
  {
  }

  lemma StartsUninterrupted(shape: Shape, engines: Engines, bytesArg: Bytes, stringArg: string, first: int)
    ensures Interrupted(shape, engines, bytesArg, stringArg, Initial(shape, bytesArg, stringArg), first)
  {
  }

  /** The recipient the dispatch stopped in was there and suspended on the argument threaded so far. */
  ghost predicate WasSuspended(shape: Shape, engines: Engines, bytesArg: Bytes, stringArg: string, result: Result) {
    && 0 <= result.suspendedEngineIndex < |engines| && engines[result.suspendedEngineIndex].Some?
    && var arg := Argument(shape, bytesArg, stringArg, result.total);
       engines[result.suspendedEngineIndex].value.suspends(arg.0, arg.1)
  }

  /** What a returned dispatch amounts to once the recipients it left over are run straight: a suspended
      recipient is counted among those still to run. */
  ghost function Remains(shape: Shape, engines: Engines, bytesArg: Bytes, stringArg: string, result: Result,
                         called: seq<nat>): Option<Outcome> {
    if result.suspended then
      if called != [] && result.suspendedEngineIndex == called[|called| - 1] < |engines| then
        Some(Then(called[..|called| - 1], Straight(shape, engines, bytesArg, stringArg, called[|called| - 1],
                                                   result.total)))
      else None
    else if result.recipientMutationBoundary then
      if 0 <= result.nextEngineIndex < |engines| then
        Some(Then(called, Straight(shape, engines, bytesArg, stringArg, result.nextEngineIndex, result.total)))
      else None
    else Some(Outcome(result.total, called))
  }
}