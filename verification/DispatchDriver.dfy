/** The runtime's side of an interrupted dispatch: it resumes suspended recipients, re-enters the dispatch
    behind mutation boundaries, and merges the pieces. */
module DispatchDriver {
  import opened Wrappers
  import opened Dispatch

  /** Recipients called at most once, in order, and only if they are there. */
  ghost predicate InOrder(called: seq<nat>, engines: Engines, i: nat) {
    && (forall k | k in called :: i <= k < |engines| && engines[k].Some?)
    && (forall a, b | 0 <= a < b < |called| :: called[a] < called[b])
  }

  /** A recipient that is there is skipped only because the last one called came before it. */
  ghost predicate SkipsOnlyTheRest(called: seq<nat>, engines: Engines, i: nat) {
    forall k | i <= k < |engines| && engines[k].Some? :: k in called || (called != [] && called[|called| - 1] < k)
  }

  lemma OneInFront(i: nat, rest: seq<nat>, engines: Engines)
    requires i < |engines| && engines[i].Some? && InOrder(rest, engines, i + 1)
             && SkipsOnlyTheRest(rest, engines, i + 1)
    ensures InOrder([i] + rest, engines, i) && SkipsOnlyTheRest([i] + rest, engines, i)
  {
    var called := [i] + rest;
    assert forall b | 0 < b < |called| :: called[b] == rest[b - 1] && rest[b - 1] in rest;
    forall k | i <= k < |engines| && engines[k].Some?
      ensures k in called || called[|called| - 1] < k
    {
      if k == i {
        assert called[0] == i;
      } else if rest != [] {
        assert called[|called| - 1] == rest[|rest| - 1];
      }
    }
  }

  lemma {:induction false} StraightCallsInOrder(shape: Shape, engines: Engines, bytesArg: Bytes, stringArg: string,
                                                i: nat, total: Total)
    requires i <= |engines|
    ensures var called := Straight(shape, engines, bytesArg, stringArg, i, total).called;
            InOrder(called, engines, i) && SkipsOnlyTheRest(called, engines, i)
    decreases |engines| - i
  {
    if i < |engines| {
      if engines[i].None? {
        StraightCallsInOrder(shape, engines, bytesArg, stringArg, i + 1, total);
      } else {
        var arg := Argument(shape, bytesArg, stringArg, total);
        var a := engines[i].value.answer(arg.0, arg.1);
        StraightCallsInOrder(shape, engines, bytesArg, stringArg, i + 1, Absorb(shape, total, a));
        OneInFront(i, Straight(shape, engines, bytesArg, stringArg, i + 1, Absorb(shape, total, a)).called, engines);
      }
    }
  }

  /** Only the arguments that recipients see matter. */
  lemma {:induction false} SameArguments(shape: Shape, engines: Engines, b: Bytes, s: string, b': Bytes, s': string,
                                         i: nat, total: Total)
    requires i <= |engines| && (shape.BytesInOut? || b == b') && (shape.StringInOut? || s == s')
    ensures Straight(shape, engines, b, s, i, total) == Straight(shape, engines, b', s', i, total)
    decreases |engines| - i
  {
    if i < |engines| {
      if engines[i].None? {
        SameArguments(shape, engines, b, s, b', s', i + 1, total);
      } else {
        var arg := Argument(shape, b, s, total);
        SameArguments(shape, engines, b, s, b', s', i + 1, Absorb(shape, total, engines[i].value.answer(arg.0, arg.1)));
      }
    }
  }

  lemma {:induction false} NobodyLeft(shape: Shape, engines: Engines, bytesArg: Bytes, stringArg: string, i: nat,
                                      total: Total)
    requires i <= |engines| && forall k | i <= k < |engines| :: engines[k].None?
    ensures Straight(shape, engines, bytesArg, stringArg, i, total) == Outcome(total, [])
    decreases |engines| - i
  {
    if i < |engines| {
      NobodyLeft(shape, engines, bytesArg, stringArg, i + 1, total);
    }
  }

  /** A re-entered range, merged into what came before, owes what the uninterrupted run owed. */
  lemma RangeOwes(shape: Shape, engines: Engines, bytesArg: Bytes, stringArg: string, next: nat, partial: Total,
                  range: Result, called: seq<nat>, b: Bytes, s: string)
    requires next <= |engines|
    requires (b, s) == Argument(shape, bytesArg, stringArg, partial)
    requires Remains(shape, engines, b, s, range, called) ==
             Some(Straight(shape, engines, b, s, next, Start(shape, b, s)))
    ensures Remains(shape, engines, bytesArg, stringArg, range.(total := Joined(shape, partial, range.total)),
                    called) ==
            Some(Straight(shape, engines, bytesArg, stringArg, next, partial))
  {
    hide Absorb, Start, Joined;
    FreshStartIsNeutral(shape, partial, bytesArg, stringArg);
    RangesAddUp(shape, engines, b, s, next, partial, Start(shape, b, s));
    SameArguments(shape, engines, bytesArg, stringArg, b, s, next, partial);
    if range.suspended {
      RangesAddUp(shape, engines, b, s, called[|called| - 1], partial, range.total);
      SameArguments(shape, engines, bytesArg, stringArg, b, s, called[|called| - 1],
                    Joined(shape, partial, range.total));
    } else if range.recipientMutationBoundary {
      RangesAddUp(shape, engines, b, s, range.nextEngineIndex, partial, range.total);
      SameArguments(shape, engines, bytesArg, stringArg, b, s, range.nextEngineIndex,
                    Joined(shape, partial, range.total));
    }
  }

  /** What a recipient answers; one that is not there has no function. */
  function AnswerOf(engines: Engines, bytesArg: Bytes, stringArg: string, k: nat): Answer {
    if k < |engines| && engines[k].Some? then engines[k].value.answer(bytesArg, stringArg)
    else Answer(false, true, [], "")
  }

  /** The recipients called that have the function. */
  ghost function Having(engines: Engines, bytesArg: Bytes, stringArg: string, called: seq<nat>): set<nat>
  {
    set k | k in called && AnswerOf(engines, bytesArg, stringArg, k).hasFunction
  }

  /** The recipients called that have the function and answer with the given result. */
  ghost function HavingWith(engines: Engines, bytesArg: Bytes, stringArg: string, called: seq<nat>, ok: bool): set<nat>
  {
    set k | k in called && AnswerOf(engines, bytesArg, stringArg, k).hasFunction
            && AnswerOf(engines, bytesArg, stringArg, k).ok == ok
  }

  /** The recipients called that answer false. */
  ghost function Failing(engines: Engines, bytesArg: Bytes, stringArg: string, called: seq<nat>): set<nat> {
    set k | k in called && !AnswerOf(engines, bytesArg, stringArg, k).ok
  }

  /** What the values of a run say about the answers of the recipients it called, shape by shape. */
  ghost predicate Tallied(shape: Shape, engines: Engines, bytesArg: Bytes, stringArg: string, from: Total, o: Outcome)
  {
    AddsUp(shape, from, o.total, |Having(engines, bytesArg, stringArg, o.called)|,
           HavingWith(engines, bytesArg, stringArg, o.called, true) != {},
           HavingWith(engines, bytesArg, stringArg, o.called, false) != {},
           Failing(engines, bytesArg, stringArg, o.called) != {})
  }

  /** By how many recipients have the function, and whether one with it answers true, one with it answers false,
      and any one at all answers false. */
  ghost predicate AddsUp(shape: Shape, from: Total, total: Total, having: nat, yes: bool, no: bool, failing: bool) {
    var some := from.hasFunction || having > 0;
    match shape
    case BooleanAndFunction => total == from.(boolResult := from.boolResult && !failing, hasFunction := some)
    case StopOnFalse => total == from.(boolResult := from.boolResult && !no, hasFunction := some)
    case StopOnTrue => total == from.(boolResult := from.boolResult || yes, hasFunction := some)
    case FunctionHandled => total == from.(boolResult := from.boolResult || having > 0, hasFunction := some)
    case FunctionCount => total == from.(countResult := from.countResult + having)
    case FunctionAny => total == from.(hasFunction := some)
    case BytesInOut => true
    case StringInOut => true
  }

  lemma OneMoreAddsUp(shape: Shape, from: Total, total: Total, a: Answer, having: nat, yes: bool, no: bool,
                      failing: bool)
    requires AddsUp(shape, Absorb(shape, from, a), total, having, yes, no, failing)
    ensures AddsUp(shape, from, total, having + (if a.hasFunction then 1 else 0), yes || (a.hasFunction && a.ok),
                   no || (a.hasFunction && !a.ok), failing || !a.ok)
  {
  }

  /** Nobody is called behind the recipient that ends the run, and somebody is left out only behind it. The
      run ends at a function that answers false, at one that answers true, or at any function. */
  ghost predicate EndsWhereItMust(shape: Shape, engines: Engines, bytesArg: Bytes, stringArg: string, i: nat,
                                  called: seq<nat>)
  {
    && (forall j | 0 <= j < |called| - 1 ::
          var a := AnswerOf(engines, bytesArg, stringArg, called[j]);
          a.hasFunction ==> !shape.FunctionHandled? && (shape.StopOnFalse? ==> a.ok) && (shape.StopOnTrue? ==> !a.ok))
    && (forall k | i <= k < |engines| && engines[k].Some? && k !in called ::
          && called != [] && called[|called| - 1] < k
          && var a := AnswerOf(engines, bytesArg, stringArg, called[|called| - 1]);
             a.hasFunction && (shape.FunctionHandled? || (shape.StopOnFalse? && !a.ok) || (shape.StopOnTrue? && a.ok)))
  }

  /** Each recipient called answers what the one before it has put out. */
  ghost predicate BytesThreaded(engines: Engines, stringArg: string, called: seq<nat>, outputs: seq<Bytes>)
  {
    |outputs| == |called| + 1
    && forall j | 0 <= j < |called| :: outputs[j + 1] == AnswerOf(engines, outputs[j], stringArg, called[j]).bytes
  }

  ghost predicate StringThreaded(engines: Engines, bytesArg: Bytes, called: seq<nat>, outputs: seq<string>)
  {
    |outputs| == |called| + 1
    && forall j | 0 <= j < |called| :: outputs[j + 1] == AnswerOf(engines, bytesArg, outputs[j], called[j]).text
  }

  lemma OneMoreCalled(engines: Engines, bytesArg: Bytes, stringArg: string, i: nat, rest: seq<nat>)
    requires i !in rest
    ensures var a, called := AnswerOf(engines, bytesArg, stringArg, i), [i] + rest;
            && |Having(engines, bytesArg, stringArg, called)| ==
               |Having(engines, bytesArg, stringArg, rest)| + (if a.hasFunction then 1 else 0)
            && (Failing(engines, bytesArg, stringArg, called) != {} <==>
                  Failing(engines, bytesArg, stringArg, rest) != {} || !a.ok)
            && (HavingWith(engines, bytesArg, stringArg, called, true) != {} <==>
                  HavingWith(engines, bytesArg, stringArg, rest, true) != {} || (a.hasFunction && a.ok))
            && (HavingWith(engines, bytesArg, stringArg, called, false) != {} <==>
                  HavingWith(engines, bytesArg, stringArg, rest, false) != {} || (a.hasFunction && !a.ok))
  {
    OneMoreHaving(engines, bytesArg, stringArg, i, rest);
    OneMoreFailing(engines, bytesArg, stringArg, i, rest);
    OneMoreHavingWith(engines, bytesArg, stringArg, i, rest, true);
    OneMoreHavingWith(engines, bytesArg, stringArg, i, rest, false);
    hide Having, HavingWith, Failing, AnswerOf;
  }

  lemma OneMoreHaving(engines: Engines, bytesArg: Bytes, stringArg: string, i: nat, rest: seq<nat>)
    requires i !in rest
    ensures |Having(engines, bytesArg, stringArg, [i] + rest)| ==
            |Having(engines, bytesArg, stringArg, rest)|
            + (if AnswerOf(engines, bytesArg, stringArg, i).hasFunction then 1 else 0)
  {
    hide AnswerOf;
    var before, after := Having(engines, bytesArg, stringArg, rest), Having(engines, bytesArg, stringArg, [i] + rest);
    if AnswerOf(engines, bytesArg, stringArg, i).hasFunction {
      assert after == before + {i};
    } else {
      assert after == before;
    }
  }

  lemma OneMoreFailing(engines: Engines, bytesArg: Bytes, stringArg: string, i: nat, rest: seq<nat>)
    ensures Failing(engines, bytesArg, stringArg, [i] + rest) != {} <==>
            Failing(engines, bytesArg, stringArg, rest) != {} || !AnswerOf(engines, bytesArg, stringArg, i).ok
  {
    hide AnswerOf;
    var before := Failing(engines, bytesArg, stringArg, rest);
    var after := Failing(engines, bytesArg, stringArg, [i] + rest);
    if AnswerOf(engines, bytesArg, stringArg, i).ok {
      assert after == before;
    } else {
      assert i in after;
    }
  }

  lemma OneMoreHavingWith(engines: Engines, bytesArg: Bytes, stringArg: string, i: nat, rest: seq<nat>, ok: bool)
    ensures var a := AnswerOf(engines, bytesArg, stringArg, i);
            HavingWith(engines, bytesArg, stringArg, [i] + rest, ok) != {} <==>
            HavingWith(engines, bytesArg, stringArg, rest, ok) != {} || (a.hasFunction && a.ok == ok)
  {
    hide AnswerOf;
    var a := AnswerOf(engines, bytesArg, stringArg, i);
    var before := HavingWith(engines, bytesArg, stringArg, rest, ok);
    var after := HavingWith(engines, bytesArg, stringArg, [i] + rest, ok);
    if a.hasFunction && a.ok == ok {
      assert i in after;
    } else {
      assert after == before;
    }
  }

  lemma OneMoreTallied(shape: Shape, engines: Engines, bytesArg: Bytes, stringArg: string, from: Total, i: nat,
                       rest: Outcome)
    requires i !in rest.called
    requires Tallied(shape, engines, bytesArg, stringArg,
                     Absorb(shape, from, AnswerOf(engines, bytesArg, stringArg, i)), rest)
    ensures Tallied(shape, engines, bytesArg, stringArg, from, Then([i], rest))
  {
    var a := AnswerOf(engines, bytesArg, stringArg, i);
    OneMoreCalled(engines, bytesArg, stringArg, i, rest.called);
    hide AddsUp, Absorb, AnswerOf, Having, HavingWith, Failing;
    OneMoreAddsUp(shape, from, rest.total, a, |Having(engines, bytesArg, stringArg, rest.called)|,
                  HavingWith(engines, bytesArg, stringArg, rest.called, true) != {},
                  HavingWith(engines, bytesArg, stringArg, rest.called, false) != {},
                  Failing(engines, bytesArg, stringArg, rest.called) != {});
  }

  lemma NobodyTallied(shape: Shape, engines: Engines, bytesArg: Bytes, stringArg: string, from: Total)
    ensures Tallied(shape, engines, bytesArg, stringArg, from, Outcome(from, []))
  {
    assert Having(engines, bytesArg, stringArg, []) == Failing(engines, bytesArg, stringArg, []) == {};
    assert forall ok :: HavingWith(engines, bytesArg, stringArg, [], ok) == {};
  }

  /** What the values of a straight run say, for every shape that does not thread its argument. */
  lemma {:induction false} StraightMeans(shape: Shape, engines: Engines, bytesArg: Bytes, stringArg: string, i: nat,
                                         total: Total)
    requires i <= |engines| && !shape.BytesInOut? && !shape.StringInOut?
    ensures Tallied(shape, engines, bytesArg, stringArg, total,
                    Straight(shape, engines, bytesArg, stringArg, i, total))
    decreases |engines| - i
  {
    hide Tallied, Absorb, Decides, InOrder, SkipsOnlyTheRest;
    if i == |engines| {
      NobodyTallied(shape, engines, bytesArg, stringArg, total);
    } else if engines[i].None? {
      StraightMeans(shape, engines, bytesArg, stringArg, i + 1, total);
    } else {
      var a := AnswerOf(engines, bytesArg, stringArg, i);
      var total' := Absorb(shape, total, a);
      if Decides(shape, a) {
        NobodyTallied(shape, engines, bytesArg, stringArg, total');
        OneMoreTallied(shape, engines, bytesArg, stringArg, total, i, Outcome(total', []));
        assert [i] + [] == [i];
      } else {
        StraightMeans(shape, engines, bytesArg, stringArg, i + 1, total');
        NotCalledAgain(shape, engines, bytesArg, stringArg, i, total');
        OneMoreTallied(shape, engines, bytesArg, stringArg, total, i,
                       Straight(shape, engines, bytesArg, stringArg, i + 1, total'));
      }
    }
  }

  lemma NotCalledAgain(shape: Shape, engines: Engines, bytesArg: Bytes, stringArg: string, i: nat, total: Total)
    requires i < |engines|
    ensures i !in Straight(shape, engines, bytesArg, stringArg, i + 1, total).called
  {
    StraightCallsInOrder(shape, engines, bytesArg, stringArg, i + 1, total);
  }

  /** Every straight run ends where it must, and nowhere else. */
  lemma {:induction false} StraightEnds(shape: Shape, engines: Engines, bytesArg: Bytes, stringArg: string, i: nat,
                                        total: Total)
    requires i <= |engines|
    ensures EndsWhereItMust(shape, engines, bytesArg, stringArg, i,
                            Straight(shape, engines, bytesArg, stringArg, i, total).called)
    decreases |engines| - i
  {
    if i < |engines| {
      if engines[i].None? {
        StraightEnds(shape, engines, bytesArg, stringArg, i + 1, total);
      } else {
        hide Absorb;
        var arg := Argument(shape, bytesArg, stringArg, total);
        var a := engines[i].value.answer(arg.0, arg.1);
        var rest := Straight(shape, engines, bytesArg, stringArg, i + 1, Absorb(shape, total, a));
        StraightEnds(shape, engines, bytesArg, stringArg, i + 1, Absorb(shape, total, a));
        StraightCallsInOrder(shape, engines, bytesArg, stringArg, i + 1, Absorb(shape, total, a));
        if !Decides(shape, a) {
          OneInFrontEnds(shape, engines, bytesArg, stringArg, i, rest.called);
        }
      }
    }
  }

  lemma OneInFrontEnds(shape: Shape, engines: Engines, bytesArg: Bytes, stringArg: string, i: nat, rest: seq<nat>)
    requires i < |engines| && engines[i].Some? && InOrder(rest, engines, i + 1)
    requires !Decides(shape, AnswerOf(engines, bytesArg, stringArg, i))
    requires EndsWhereItMust(shape, engines, bytesArg, stringArg, i + 1, rest)
    ensures EndsWhereItMust(shape, engines, bytesArg, stringArg, i, [i] + rest)
  {
    var called := [i] + rest;
    assert forall k :: k in called <==> k == i || k in rest;
    assert forall j | 0 < j < |called| :: called[j] == rest[j - 1];
    assert rest != [] ==> called[|called| - 1] == rest[|rest| - 1];
  }

  /** What a straight run of an in/out shape puts out: its argument, handed from recipient to recipient. */
  lemma {:induction false} BytesRun(engines: Engines, bytesArg: Bytes, stringArg: string, i: nat, total: Total)
    returns (outputs: seq<Bytes>)
    requires i <= |engines|
    ensures var o := Straight(BytesInOut, engines, bytesArg, stringArg, i, total);
            && BytesThreaded(engines, stringArg, o.called, outputs) && outputs[0] == total.bytesResult
            && o.total == total.(bytesResult := outputs[|outputs| - 1])
    decreases |engines| - i
  {
    outputs := [total.bytesResult];
    if i < |engines| {
      if engines[i].None? {
        outputs := BytesRun(engines, bytesArg, stringArg, i + 1, total);
      } else {
        var a := AnswerOf(engines, total.bytesResult, stringArg, i);
        var rest := BytesRun(engines, bytesArg, stringArg, i + 1, total.(bytesResult := a.bytes));
        outputs := outputs + rest;
      }
    }
  }

  lemma {:induction false} StringRun(engines: Engines, bytesArg: Bytes, stringArg: string, i: nat, total: Total)
    returns (outputs: seq<string>)
    requires i <= |engines|
    ensures var o := Straight(StringInOut, engines, bytesArg, stringArg, i, total);
            && StringThreaded(engines, bytesArg, o.called, outputs) && outputs[0] == total.stringResult
            && o.total == total.(stringResult := outputs[|outputs| - 1])
    decreases |engines| - i
  {
    outputs := [total.stringResult];
    if i < |engines| {
      if engines[i].None? {
        outputs := StringRun(engines, bytesArg, stringArg, i + 1, total);
      } else {
        var a := AnswerOf(engines, bytesArg, total.stringResult, i);
        var rest := StringRun(engines, bytesArg, stringArg, i + 1, total.(stringResult := a.text));
        outputs := outputs + rest;
      }
    }
  }

  /** The runtime's record of a dispatch in progress: the merged values, where to go on, and whether a
      suspended recipient must answer first. */
  datatype Progress = Finished | Continuing(next: nat) | Waiting(suspended: nat)

  /** What is still owed in each stage; a waiting recipient has been called but has not answered. */
  ghost function Owed(shape: Shape, engines: Engines, bytesArg: Bytes, stringArg: string, p: Progress, total: Total,
                      called: seq<nat>)
    : Option<Outcome>
  {
    match p
    case Finished => Some(Outcome(total, called))
    case Continuing(next) =>
      if next > |engines| then None else Some(Then(called, Straight(shape, engines, bytesArg, stringArg, next, total)))
    case Waiting(s) =>
      if s < |engines| && called != [] && called[|called| - 1] == s then
        Some(Then(called[..|called| - 1], Straight(shape, engines, bytesArg, stringArg, s, total)))
      else None
  }

  /** A suspended recipient resumes, completes and is merged. Suspending again first changes neither the
      merged values nor the place to go on. */
  method Resume(shape: Shape, engines: Engines, bytesArg: Bytes, stringArg: string, partial: Result, s: nat,
                ghost called: seq<nat>)
    returns (merged: Result, p: Progress)
    requires Plausible(engines) && WasSuspended(shape, engines, bytesArg, stringArg,
                                                partial.(suspendedEngineIndex := s))
    requires Owed(shape, engines, bytesArg, stringArg, Waiting(s), partial.total, called).Some?
    ensures Owed(shape, engines, bytesArg, stringArg, p, merged.total, called) ==
            Owed(shape, engines, bytesArg, stringArg, Waiting(s), partial.total, called)
    ensures p == Finished || p == Continuing(s + 1)
    ensures Declared(shape, merged.(suspended := false), true)
  {
    hide Absorb, Decides, Straight;
    var arg := Argument(shape, bytesArg, stringArg, partial.total);
    var a := engines[s].value.answer(arg.0, arg.1);
    var stops := StopsAfter(shape, Resumed(a));
    MergeAbsorbs(shape, partial, a);
    OneMore(shape, engines, bytesArg, stringArg, s, partial.total, called[..|called| - 1]);
    assert called[..|called| - 1] + [s] == called;
    merged := MergeRecipient(shape, partial, Resumed(a));
    if stops {
      p := Finished;
    } else if s + 1 < |engines| {
      p := Continuing(s + 1);
    } else {
      NobodyLeft(shape, engines, bytesArg, stringArg, s + 1, merged.total);
      p := Finished;
    }
    assert called + [] == called;
  }

  /** A suspension as the runtime records it. */
  ghost predicate Ready(shape: Shape, engines: Engines, bytesArg: Bytes, stringArg: string, p: Progress,
                        partial: Result) {
    p.Waiting? ==> WasSuspended(shape, engines, bytesArg, stringArg, partial.(suspendedEngineIndex := p.suspended))
  }

  /** The dispatch is re-entered at the next recipient that is there, with the carried argument, and the
      range it completes is merged. */
  method Reenter(shape: Shape, engines: Engines, bytesArg: Bytes, stringArg: string, partial: Result, next: nat,
                 callbackSnapshot: Option<Snapshot>, ghost called: seq<nat>)
    returns (merged: Result, p: Progress, now: seq<nat>)
    requires next <= |engines|
    ensures Owed(shape, engines, bytesArg, stringArg, p, merged.total, called + now) ==
            Owed(shape, engines, bytesArg, stringArg, Continuing(next), partial.total, called)
    ensures Ready(shape, engines, bytesArg, stringArg, p, merged)
    ensures p.Continuing? ==> next < p.next
    ensures p.Waiting? ==> next <= p.suspended < |engines|
    ensures !p.Waiting? ==> Declared(shape, merged.(suspended := false), true) || (merged == partial && now == [])
  {
    hide Absorb, Decides, Straight, StopsAfter, MergeRange, Joined, Argument;
    var at := next;
    while at < |engines| && engines[at].None?
      invariant next <= at <= |engines|
      invariant Straight(shape, engines, bytesArg, stringArg, next, partial.total) ==
                Straight(shape, engines, bytesArg, stringArg, at, partial.total)
    {
      StraightMoves(shape, engines, bytesArg, stringArg, at, partial.total);
      at := at + 1;
    }
    if at == |engines| {
      StraightMoves(shape, engines, bytesArg, stringArg, at, partial.total);
      return partial, Finished, [];
    }
    var arg := Argument(shape, bytesArg, stringArg, partial.total);
    var range, calls := DispatchBatch(shape, engines, at, arg.0, arg.1, callbackSnapshot);
    now := Indices(calls);
    assert calls != [];
    merged := MergeRange(shape, partial, range);
    RangeOwes(shape, engines, bytesArg, stringArg, at, partial.total, range, now, arg.0, arg.1);
    MergeIsJoined(shape, partial, range, bytesArg, stringArg);
    if !range.suspended {
      MergeDeclares(shape, partial, range);
    }
    ghost var rest := Straight(shape, engines, bytesArg, stringArg, at, partial.total);
    p := AfterRange(shape, engines, bytesArg, stringArg, range, merged, called, now, rest);
  }

  /** What comes after a merged range: a suspended recipient to wait for, the end, or the next recipient. */
  method AfterRange(shape: Shape, engines: Engines, bytesArg: Bytes, stringArg: string, range: Result, merged: Result,
                    ghost called: seq<nat>, ghost now: seq<nat>, ghost rest: Outcome)
    returns (p: Progress)
    requires Remains(shape, engines, bytesArg, stringArg, range.(total := merged.total), now) == Some(rest)
    requires range.suspended || range.recipientMutationBoundary ==> !StopsAfter(shape, range)
    ensures Owed(shape, engines, bytesArg, stringArg, p, merged.total, called + now) == Some(Then(called, rest))
    ensures p.Continuing? ==> range.recipientMutationBoundary && p.next == range.nextEngineIndex
    ensures p.Waiting? <==> range.suspended
    ensures p.Waiting? ==> p.suspended == range.suspendedEngineIndex
  {
    hide Straight, StopsAfter;
    if range.suspended {
      p := Waiting(range.suspendedEngineIndex);
      assert (called + now)[..|called + now| - 1] == called + now[..|now| - 1];
      ThenThen(called, now[..|now| - 1], Straight(shape, engines, bytesArg, stringArg, p.suspended, merged.total));
    } else if StopsAfter(shape, range) {
      p := Finished;
    } else if range.recipientMutationBoundary
              && exists k :: range.nextEngineIndex <= k < |engines| && engines[k].Some? {
      p := Continuing(range.nextEngineIndex);
      ThenThen(called, now, Straight(shape, engines, bytesArg, stringArg, range.nextEngineIndex, merged.total));
    } else {
      if range.recipientMutationBoundary {
        NobodyLeft(shape, engines, bytesArg, stringArg, range.nextEngineIndex, merged.total);
        assert now + [] == now;
      }
      p := Finished;
    }
  }

  lemma ThenThen(first: seq<nat>, second: seq<nat>, rest: Outcome)
    ensures Then(first, Then(second, rest)) == Then(first + second, rest)
  {
    assert first + (second + rest.called) == (first + second) + rest.called;
  }

  lemma MergeDeclares(shape: Shape, partial: Result, range: Result)
    requires Declared(shape, range, true) && !range.suspended
    ensures Declared(shape, MergeRange(shape, partial, range).(suspended := false), true)
  {
  }

  lemma MergeIsJoined(shape: Shape, partial: Result, range: Result, bytesArg: Bytes, stringArg: string)
    ensures MergeRange(shape, partial, range).total == Joined(shape, partial.total, range.total)
    ensures var arg := Argument(shape, bytesArg, stringArg, partial.total);
            Argument(shape, arg.0, arg.1, range.total) ==
                Argument(shape, bytesArg, stringArg, MergeRange(shape, partial, range).total)
  {
    match shape
    case BooleanAndFunction => case StopOnFalse => case FunctionHandled => case StopOnTrue =>
    case FunctionCount => case FunctionAny => case BytesInOut => case StringInOut =>
  }

  /** The first dispatch, and what it leaves to do. */
  method Begin(shape: Shape, engines: Engines, bytesArg: Bytes, stringArg: string, callbackSnapshot: Option<Snapshot>)
    returns (result: Result, p: Progress, called: seq<nat>)
    requires Plausible(engines)
    ensures Owed(shape, engines, bytesArg, stringArg, p, result.total, called) ==
            Some(Straight(shape, engines, bytesArg, stringArg, 0, Start(shape, bytesArg, stringArg)))
    ensures Ready(shape, engines, bytesArg, stringArg, p, result) && (p != Finished ==> called != [])
    ensures !p.Waiting? ==> Declared(shape, result.(suspended := false), called != [])
  {
    hide Straight, StopsAfter, Start;
    var calls;
    result, calls := DispatchBatch(shape, engines, 0, bytesArg, stringArg, callbackSnapshot);
    called := Indices(calls);
    p := if result.recipientMutationBoundary then Continuing(result.nextEngineIndex)
         else if result.suspended then Waiting(result.suspendedEngineIndex) else Finished;
  }

  lemma DeclaredWhenDone(shape: Shape, r: Result, called: bool)
    requires Declared(shape, r.(suspended := false), called)
    ensures Declared(shape, r.(suspended := false, suspendedEngineIndex := -1, recipientMutationBoundary := false,
                               nextEngineIndex := -1), called)
  {
  }

  /** A whole dispatch, with any number of suspensions and mutation boundaries anywhere: the values and the
      recipients called are those of the run that nothing interrupts. */
  method Drive(shape: Shape, engines: Engines, bytesArg: Bytes, stringArg: string, snapshotAt: nat -> Option<Snapshot>)
    returns (final: Result, called: seq<nat>)
    requires Plausible(engines)
    ensures Outcome(final.total, called) == Straight(shape, engines, bytesArg, stringArg, 0,
                                                     Start(shape, bytesArg, stringArg))
    ensures InOrder(called, engines, 0) && EndsWhereItMust(shape, engines, bytesArg, stringArg, 0, called)
    ensures !shape.BytesInOut? && !shape.StringInOut? ==>
              Tallied(shape, engines, bytesArg, stringArg,
                      Total(shape.BooleanAndFunction? || shape.StopOnFalse?, false, 0, [], ""),
                      Outcome(final.total, called))
    ensures shape.BytesInOut? ==>
              exists outputs | BytesThreaded(engines, stringArg, called, outputs) ::
                outputs[0] == bytesArg && final.total == Total(false, false, 0, outputs[|outputs| - 1], "")
    ensures shape.StringInOut? ==>
              exists outputs | StringThreaded(engines, bytesArg, called, outputs) ::
                outputs[0] == stringArg && final.total == Total(false, false, 0, [], outputs[|outputs| - 1])
    ensures !final.suspended && Declared(shape, final, called != [])
  {
    hide Absorb, Decides, Straight, StopsAfter, InOrder, Start, WasSuspended, Remains, Declared, Tallied,
         EndsWhereItMust, BytesThreaded, StringThreaded;
    ghost var all := Straight(shape, engines, bytesArg, stringArg, 0, Start(shape, bytesArg, stringArg));
    var p;
    final, p, called := Begin(shape, engines, bytesArg, stringArg, snapshotAt(0));
    while p != Finished
      invariant Owed(shape, engines, bytesArg, stringArg, p, final.total, called) == Some(all)
      invariant Ready(shape, engines, bytesArg, stringArg, p, final)
      invariant p != Finished ==> called != []
      invariant !p.Waiting? ==> Declared(shape, final.(suspended := false), called != [])
      decreases if p.Finished? then 0 else if p.Continuing? then 2 * (|engines| - p.next) + 2
          else 2 * (|engines| - p.suspended) + 1
    {
      if p.Waiting? {
        final, p := Resume(shape, engines, bytesArg, stringArg, final, p.suspended, called);
      } else {
        var now;
        final, p, now := Reenter(shape, engines, bytesArg, stringArg, final, p.next, snapshotAt(p.next), called);
        called := called + now;
      }
    }
    DeclaredWhenDone(shape, final, called != []);
    final := final.(suspended := false, suspendedEngineIndex := -1, recipientMutationBoundary := false,
                    nextEngineIndex := -1);
    DrivenMeans(shape, engines, bytesArg, stringArg);
  }

  /** What the uninterrupted run comes to. */
  lemma DrivenMeans(shape: Shape, engines: Engines, bytesArg: Bytes, stringArg: string)
    ensures var o := Straight(shape, engines, bytesArg, stringArg, 0, Start(shape, bytesArg, stringArg));
            && InOrder(o.called, engines, 0) && EndsWhereItMust(shape, engines, bytesArg, stringArg, 0, o.called)
            && (!shape.BytesInOut? && !shape.StringInOut? ==>
                  Tallied(shape, engines, bytesArg, stringArg,
                          Total(shape.BooleanAndFunction? || shape.StopOnFalse?, false, 0, [], ""), o))
            && (shape.BytesInOut? ==>
                  exists outputs | BytesThreaded(engines, stringArg, o.called, outputs) ::
                    outputs[0] == bytesArg && o.total == Total(false, false, 0, outputs[|outputs| - 1], ""))
            && (shape.StringInOut? ==>
                  exists outputs | StringThreaded(engines, bytesArg, o.called, outputs) ::
                    outputs[0] == stringArg && o.total == Total(false, false, 0, [], outputs[|outputs| - 1]))
  {
    hide Straight, Tallied, EndsWhereItMust, InOrder, BytesThreaded, StringThreaded, SkipsOnlyTheRest;
    var start := Start(shape, bytesArg, stringArg);
    StraightCallsInOrder(shape, engines, bytesArg, stringArg, 0, start);
    StraightEnds(shape, engines, bytesArg, stringArg, 0, start);
    if shape.BytesInOut? {
      var _ := BytesRun(engines, bytesArg, stringArg, 0, start);
    } else if shape.StringInOut? {
      var _ := StringRun(engines, bytesArg, stringArg, 0, start);
    } else {
      StraightMeans(shape, engines, bytesArg, stringArg, 0, start);
    }
  }
}