/** The brace matcher: a pushdown scan in either direction from the delimiter under the cursor. */
module BraceMatch {
  import opened Wrappers

  const MAX_NEST := 1000

  predicate IsStart(c: char) {
    c == '{' || c == '[' || c == '('
  }

  predicate IsEnd(c: char) {
    c == '}' || c == ']' || c == ')'
  }

  predicate IsDelimiter(c: char) {
    IsStart(c) || IsEnd(c)
  }

  function Matching(c: char): char {
    match c
    case '[' => ']' case '(' => ')' case '{' => '}'
    case ']' => '[' case ')' => '(' case '}' => '{'
    case _ => '\0'
  }

  /** The three pairs, one by one. */
  lemma ThreePairs(c: char)
    ensures IsStart(c) <==> c in "{[("
    ensures IsEnd(c) <==> c in "}])"
    ensures Matching('{') == '}' && Matching('[') == ']' && Matching('(') == ')'
    ensures Matching('}') == '{' && Matching(']') == '[' && Matching(')') == '('
    ensures IsStart(c) <==> IsEnd(Matching(c))
    ensures IsDelimiter(c) ==> Matching(Matching(c)) == c
  {
  }

  datatype Scan = Found(at: nat) | NotFound | TooDeep

  // ----- The two scans without quotes and escapes -----

  /** Scanning to the right from position i; the stack holds the closers still expected. */
  function Forward(text: string, i: nat, stack: seq<char>, nested: bool, delim: char): Scan
    requires stack != [] && i <= |text|
    decreases |text| - i
  {
    if i == |text| then NotFound
    else
      var c, top := text[i], |stack| - 1;
      if c == stack[top] then
        if top == 0 then Found(i) else Forward(text, i + 1, stack[..top], nested, delim)
      else if (nested && IsStart(c)) || (!nested && c == delim) then
        if |stack| >= MAX_NEST then TooDeep else Forward(text, i + 1, stack + [Matching(c)], nested, delim)
      else Forward(text, i + 1, stack, nested, delim)
  }

  /** Scanning to the left below position i; the stack holds the openers still expected. An opener that is
      not the expected one discards the expectation and is looked at again. */
  function Backward(text: string, i: nat, stack: seq<char>, nested: bool, delim: char): Scan
    requires stack != [] && i <= |text|
    decreases i, |stack|
  {
    if i == 0 then NotFound
    else
      var c, top := text[i - 1], |stack| - 1;
      if c == stack[top] then
        if top == 0 then Found(i - 1) else Backward(text, i - 1, stack[..top], nested, delim)
      else if nested && IsStart(c) then
        if top == 0 then NotFound else Backward(text, i, stack[..top], nested, delim)
      else if (nested && IsEnd(c)) || (!nested && c == delim) then
        if |stack| >= MAX_NEST then TooDeep else Backward(text, i - 1, stack + [Matching(c)], nested, delim)
      else Backward(text, i - 1, stack, nested, delim)
  }

  /** The backward stack mirrors the forward one, with the openers of stray closers on top of each level: a
      stray closer is one the forward scan passed over because another was expected. */
  ghost predicate Mirrors(back: seq<char>, stack: seq<char>)
    decreases |back|
  {
    if back == [] || stack == [] then back == [] && stack == []
    else
      var b, s := back[|back| - 1], stack[|stack| - 1];
      || (b == Matching(s) && Mirrors(back[..|back| - 1], stack[..|stack| - 1]))
      || (b != Matching(s) && IsStart(b) && Mirrors(back[..|back| - 1], stack))
  }

  /** What forward stacks hold. */
  ghost predicate Closers(stack: seq<char>, nested: bool, delim: char) {
    forall c | c in stack :: IsEnd(c) && (!nested ==> c == Matching(delim))
  }

  /** Stray closers in a forward scan. */
  ghost function Strays(text: string, i: nat, stack: seq<char>, nested: bool, delim: char): (strays: nat)
    requires stack != [] && i <= |text|
    ensures !nested ==> strays == 0
    decreases |text| - i
  {
    if i == |text| then 0
    else
      var c, top := text[i], |stack| - 1;
      if c == stack[top] then
        if top == 0 then 0 else Strays(text, i + 1, stack[..top], nested, delim)
      else if (nested && IsStart(c)) || (!nested && c == delim) then
        Strays(text, i + 1, stack + [Matching(c)], nested, delim)
      else (if nested && IsEnd(c) then 1 else 0) + Strays(text, i + 1, stack, nested, delim)
  }

  /** The largest stack of a forward scan. */
  ghost function Deepest(text: string, i: nat, stack: seq<char>, nested: bool, delim: char): (deepest: nat)
    requires stack != [] && i <= |text|
    ensures |stack| <= deepest
    decreases |text| - i
  {
    if i == |text| then |stack|
    else
      var c, top := text[i], |stack| - 1;
      if c == stack[top] then
        if top == 0 then 1 else Larger(|stack|, Deepest(text, i + 1, stack[..top], nested, delim))
      else if (nested && IsStart(c)) || (!nested && c == delim) then
        Deepest(text, i + 1, stack + [Matching(c)], nested, delim)
      else Deepest(text, i + 1, stack, nested, delim)
  }

  function Larger(a: nat, b: nat): nat {
    if a < b then b else a
  }

  /** A stack after an opener has dropped the expectations above the one it answers, and that one. */
  function Answered(back: seq<char>, opener: char): (rest: seq<char>)
    ensures |rest| <= |back| && (back != [] ==> |rest| < |back|)
    decreases |back|
  {
    if back == [] then []
    else if back[|back| - 1] == opener then back[..|back| - 1]
    else Answered(back[..|back| - 1], opener)
  }

  /** The expectations a backward scan from the match holds at a position, read off the forward scan. */
  ghost function Pending(text: string, i: nat, stack: seq<char>, nested: bool, delim: char): seq<char>
    requires stack != [] && i <= |text|
    decreases |text| - i
  {
    if i == |text| then []
    else
      var c, top := text[i], |stack| - 1;
      if c == stack[top] then
        (if top == 0 then [] else Pending(text, i + 1, stack[..top], nested, delim)) + [Matching(c)]
      else if (nested && IsStart(c)) || (!nested && c == delim) then
        Answered(Pending(text, i + 1, stack + [Matching(c)], nested, delim), c)
      else
        Pending(text, i + 1, stack, nested, delim) + if nested && IsEnd(c) then [Matching(c)] else []
  }

  /** The most expectations held at any position from the match down to this one. */
  ghost function Peak(text: string, i: nat, stack: seq<char>, nested: bool, delim: char): (peak: nat)
    requires stack != [] && i <= |text|
    ensures peak >= |Pending(text, i, stack, nested, delim)|
    decreases |text| - i
  {
    var here := |Pending(text, i, stack, nested, delim)|;
    if i == |text| then here
    else
      var c, top := text[i], |stack| - 1;
      if c == stack[top] && top == 0 then here
      else
        var later := if c == stack[top] then Peak(text, i + 1, stack[..top], nested, delim)
                     else if (nested && IsStart(c)) || (!nested && c == delim) then
                         Peak(text, i + 1, stack + [Matching(c)], nested, delim)
                     else Peak(text, i + 1, stack, nested, delim);
        if later < here then here else later
  }

  /** The backward scan below position i, come along with a forward scan at that position. */
  ghost predicate Along(back: seq<char>, stack: seq<char>, nested: bool, delim: char) {
    back != [] && Mirrors(back, stack) && (!nested ==> |back| == |stack| && forall b | b in back :: b == delim)
  }

  /** Reading an opener backwards drops the strays above the expectation it answers, and the expectation. */
  lemma {:induction false} OpenerAnswers(text: string, i: nat, back: seq<char>, stack: seq<char>, delim: char)
    requires 0 < i <= |text| && IsStart(text[i - 1]) && back != [] && |stack| > 1
    requires Mirrors(back, stack) && stack[|stack| - 1] == Matching(text[i - 1])
    ensures var rest := Answered(back, text[i - 1]);
            && rest != [] && Mirrors(rest, stack[..|stack| - 1])
            && Backward(text, i, back, true, delim) == Backward(text, i - 1, rest, true, delim)
    decreases |back|
  {
    var top := |back| - 1;
    if back[top] != text[i - 1] {
      OpenerAnswers(text, i, back[..top], stack, delim);
    }
  }

  lemma {:induction false} LastOpenerFound(text: string, i: nat, back: seq<char>, stack: seq<char>, nested: bool,
                                           delim: char)
    requires 0 < i <= |text| && IsStart(text[i - 1]) && back != [] && |stack| == 1
    requires Mirrors(back, stack) && stack[0] == Matching(text[i - 1]) && (!nested ==> |back| == 1)
    ensures Backward(text, i, back, nested, delim) == Found(i - 1)
    decreases |back|
  {
    var top := |back| - 1;
    if back[top] != text[i - 1] {
      LastOpenerFound(text, i, back[..top], stack, nested, delim);
    }
  }

  lemma LastIsOpener(back: seq<char>, stack: seq<char>, nested: bool, delim: char)
    requires back != [] && Mirrors(back, stack) && Closers(stack, nested, delim)
    ensures IsStart(back[|back| - 1])
  {
    assert stack != [] && stack[|stack| - 1] in stack;
  }

  lemma OneMoreAlong(later: seq<char>, stack: seq<char>, nested: bool, delim: char)
    requires IsStart(delim) && stack != [] && Closers(stack, nested, delim)
    requires Along(later, stack[..|stack| - 1], nested, delim)
    ensures Along(later + [Matching(stack[|stack| - 1])], stack, nested, delim)
  {
    var back := later + [Matching(stack[|stack| - 1])];
    assert back[..|back| - 1] == later;
    assert stack[|stack| - 1] in stack;
    forall b | b in back
      ensures !nested ==> b == delim
    {
      assert b in later || b == Matching(stack[|stack| - 1]);
    }
  }

  /** Backwards over a closer that the forward scan matched. */
  lemma OverMatched(text: string, i: nat, later: seq<char>, stack: seq<char>, nested: bool, delim: char)
    requires i < |text| && IsStart(delim) && |stack| > 1 && text[i] == stack[|stack| - 1]
             && Closers(stack, nested, delim)
    requires Along(later, stack[..|stack| - 1], nested, delim)
    ensures Along(later + [Matching(text[i])], stack, nested, delim)
    ensures Backward(text, i + 1, later, nested, stack[0]) ==
            if |later| >= MAX_NEST then TooDeep else Backward(text, i, later + [Matching(text[i])], nested, stack[0])
  {
    hide Mirrors;
    var below := stack[..|stack| - 1];
    assert stack[|stack| - 1] in stack && stack[0] in stack;
    assert Closers(below, nested, delim);
    LastIsOpener(later, below, nested, delim);
    OneMoreAlong(later, stack, nested, delim);
  }

  /** Backwards over an opener that the forward scan pushed. */
  lemma OverPushed(text: string, i: nat, later: seq<char>, stack: seq<char>, nested: bool, delim: char)
    requires i < |text| && IsStart(delim) && stack != [] && Closers(stack, nested, delim)
    requires (nested && IsStart(text[i])) || (!nested && text[i] == delim)
    requires Along(later, stack + [Matching(text[i])], nested, delim)
    ensures var back := Answered(later, text[i]);
            && Along(back, stack, nested, delim)
            && Backward(text, i + 1, later, nested, stack[0]) == Backward(text, i, back, nested, stack[0])
  {
    var grown := stack + [Matching(text[i])];
    assert grown[..|stack|] == stack;
    if nested {
      OpenerAnswers(text, i + 1, later, grown, stack[0]);
    } else {
      assert later[|later| - 1] in later;
      var back := later[..|later| - 1];
      assert back == Answered(later, text[i]);
      assert forall b | b in back :: b in later;
    }
  }

  /** Backwards over a character that the forward scan passed over. */
  lemma OverPassed(text: string, i: nat, later: seq<char>, stack: seq<char>, nested: bool, delim: char)
    requires i < |text| && IsStart(delim) && stack != [] && Closers(stack, nested, delim)
    requires text[i] != stack[|stack| - 1] && !(nested && IsStart(text[i])) && !(!nested && text[i] == delim)
    requires Along(later, stack, nested, delim)
    ensures var back := later + if nested && IsEnd(text[i]) then [Matching(text[i])] else [];
            && Along(back, stack, nested, delim)
            && Backward(text, i + 1, later, nested, stack[0]) ==
               if |back| > |later| && |later| >= MAX_NEST then TooDeep else Backward(text, i, back, nested, stack[0])
  {
    LastIsOpener(later, stack, nested, delim);
    assert stack[|stack| - 1] in stack && stack[0] in stack && later[|later| - 1] in later;
    if nested && IsEnd(text[i]) {
      var back := later + [Matching(text[i])];
      assert back[..|later|] == later;
    } else {
      assert later + [] == later;
    }
  }

  /** The backward scan from the match has come down to a position holding the pending expectations, unless
      there have been too many of them. */
  ghost predicate ComesAlong(text: string, i: nat, stack: seq<char>, nested: bool, delim: char, q: nat, close: char)
    requires stack != [] && i <= |text| && q < |text|
  {
    && Along(Pending(text, i, stack, nested, delim), stack, nested, delim)
    && Backward(text, q, [Matching(close)], nested, close) ==
       if Peak(text, i, stack, nested, delim) > MAX_NEST then TooDeep
       else Backward(text, i, Pending(text, i, stack, nested, delim), nested, close)
  }

  lemma AlongMatched(text: string, i: nat, stack: seq<char>, nested: bool, delim: char, q: nat)
    requires i < |text| && q < |text| && |stack| > 1 && text[i] == stack[|stack| - 1] && IsStart(delim)
             && Closers(stack, nested, delim)
    requires ComesAlong(text, i + 1, stack[..|stack| - 1], nested, delim, q, stack[0])
    ensures ComesAlong(text, i, stack, nested, delim, q, stack[0])
  {
    hide Along, Backward;
    OverMatched(text, i, Pending(text, i + 1, stack[..|stack| - 1], nested, delim), stack, nested, delim);
  }

  lemma AlongPushed(text: string, i: nat, stack: seq<char>, nested: bool, delim: char, q: nat)
    requires i < |text| && q < |text| && stack != [] && text[i] != stack[|stack| - 1]
    requires ((nested && IsStart(text[i])) || (!nested && text[i] == delim)) && IsStart(delim)
             && Closers(stack, nested, delim)
    requires ComesAlong(text, i + 1, stack + [Matching(text[i])], nested, delim, q, stack[0])
    ensures ComesAlong(text, i, stack, nested, delim, q, stack[0])
  {
    hide Along, Backward, Answered;
    OverPushed(text, i, Pending(text, i + 1, stack + [Matching(text[i])], nested, delim), stack, nested, delim);
  }

  lemma AlongPassed(text: string, i: nat, stack: seq<char>, nested: bool, delim: char, q: nat)
    requires i < |text| && q < |text| && stack != [] && text[i] != stack[|stack| - 1]
    requires !((nested && IsStart(text[i])) || (!nested && text[i] == delim)) && IsStart(delim)
             && Closers(stack, nested, delim)
    requires ComesAlong(text, i + 1, stack, nested, delim, q, stack[0])
    ensures ComesAlong(text, i, stack, nested, delim, q, stack[0])
  {
    hide Along, Backward;
    OverPassed(text, i, Pending(text, i + 1, stack, nested, delim), stack, nested, delim);
  }

  /** Where a forward scan has been, the backward scan comes along. */
  lemma {:induction false} Unwind(text: string, i: nat, stack: seq<char>, nested: bool, delim: char, q: nat)
    requires i <= |text| && stack != [] && IsStart(delim) && Closers(stack, nested, delim)
    requires Forward(text, i, stack, nested, delim) == Found(q)
    ensures i <= q < |text| && text[q] == stack[0]
    ensures ComesAlong(text, i, stack, nested, delim, q, stack[0])
    decreases |text| - i
  {
    var c, top := text[i], |stack| - 1;
    assert stack[top] in stack && stack[0] in stack;
    if c == stack[top] && top == 0 {
      OneAlong(stack[0], nested, delim);
      assert stack == [stack[0]] && Pending(text, i, stack, nested, delim) == [Matching(stack[0])];
    } else {
      hide ComesAlong;
      if c == stack[top] {
        assert stack[..top][0] == stack[0] && forall s | s in stack[..top] :: s in stack;
        Unwind(text, i + 1, stack[..top], nested, delim, q);
        AlongMatched(text, i, stack, nested, delim, q);
      } else if (nested && IsStart(c)) || (!nested && c == delim) {
        Unwind(text, i + 1, stack + [Matching(c)], nested, delim, q);
        AlongPushed(text, i, stack, nested, delim, q);
      } else {
        Unwind(text, i + 1, stack, nested, delim, q);
        AlongPassed(text, i, stack, nested, delim, q);
      }
    }
  }

  /** The way back needs no more than the deepest stack of the way there and the strays on it. */
  lemma {:induction false} PeakIsBounded(text: string, i: nat, stack: seq<char>, nested: bool, delim: char, q: nat)
    requires i <= |text| && stack != [] && IsStart(delim) && Closers(stack, nested, delim)
    requires Forward(text, i, stack, nested, delim) == Found(q)
    ensures |Pending(text, i, stack, nested, delim)| <= |stack| + Strays(text, i, stack, nested, delim)
    ensures Peak(text, i, stack, nested, delim)
         <= Deepest(text, i, stack, nested, delim) + Strays(text, i, stack, nested, delim)
    decreases |text| - i
  {
    hide Answered;
    var c, top := text[i], |stack| - 1;
    assert stack[top] in stack;
    if c == stack[top] {
      if top > 0 {
        assert forall s | s in stack[..top] :: s in stack;
        PeakIsBounded(text, i + 1, stack[..top], nested, delim, q);
      }
    } else if (nested && IsStart(c)) || (!nested && c == delim) {
      PeakIsBounded(text, i + 1, stack + [Matching(c)], nested, delim, q);
    } else {
      PeakIsBounded(text, i + 1, stack, nested, delim, q);
    }
  }

  /** A forward scan that finds its match was never deeper than the limit. */
  lemma {:induction false} DeepestFits(text: string, i: nat, stack: seq<char>, nested: bool, delim: char, q: nat)
    requires i <= |text| && 0 < |stack| <= MAX_NEST && Forward(text, i, stack, nested, delim) == Found(q)
    ensures Deepest(text, i, stack, nested, delim) <= MAX_NEST
    decreases |text| - i
  {
    var c, top := text[i], |stack| - 1;
    if c == stack[top] {
      if top > 0 {
        DeepestFits(text, i + 1, stack[..top], nested, delim, q);
      }
    } else if (nested && IsStart(c)) || (!nested && c == delim) {
      DeepestFits(text, i + 1, stack + [Matching(c)], nested, delim, q);
    } else {
      DeepestFits(text, i + 1, stack, nested, delim, q);
    }
  }

  lemma OneAlong(s: char, nested: bool, delim: char)
    requires IsStart(delim) && Closers([s], nested, delim)
    ensures Along([Matching(s)], [s], nested, delim)
  {
    assert [Matching(s)][..0] == [] && [s][..0] == [] && s in [s];
  }

  /** The round trip, for every text: what the forward scan finds from an opener leads the backward scan to
      that opener again if and only if the expectations never number more than a thousand on the way. */
  lemma RoundTrip(text: string, p: nat, nested: bool, q: nat)
    requires p < |text| && IsStart(text[p])
    requires Forward(text, p + 1, [Matching(text[p])], nested, text[p]) == Found(q)
    ensures p < q < |text| && text[q] == Matching(text[p])
    ensures var back := Backward(text, q, [Matching(text[q])], nested, text[q]);
            && (back == Found(p) <==> Peak(text, p + 1, [Matching(text[p])], nested, text[p]) <= MAX_NEST)
            && (back == Found(p) || back == TooDeep)
  {
    var stack := [Matching(text[p])];
    Unwind(text, p + 1, stack, nested, text[p], q);
    LastOpenerFound(text, p + 1, Pending(text, p + 1, stack, nested, text[p]), stack, nested, stack[0]);
  }

  /** A condition to be counted on the way there: nesting and strays together at most a thousand. */
  lemma RoundTripWithinTheLimit(text: string, p: nat, nested: bool, q: nat)
    requires p < |text| && IsStart(text[p])
    requires Forward(text, p + 1, [Matching(text[p])], nested, text[p]) == Found(q)
    requires Deepest(text, p + 1, [Matching(text[p])], nested, text[p])
           + Strays(text, p + 1, [Matching(text[p])], nested, text[p]) <= MAX_NEST
    ensures p < q < |text| && text[q] == Matching(text[p])
    ensures Backward(text, q, [Matching(text[q])], nested, text[q]) == Found(p)
  {
    RoundTrip(text, p, nested, q);
    PeakIsBounded(text, p + 1, [Matching(text[p])], nested, text[p], q);
  }

  /** Only stray closers, which the forward scan passes over and the backward scan stacks, can make the way
      back too deep; single-bracket counting has none. */
  lemma RoundTripWithoutStrays(text: string, p: nat, nested: bool, q: nat)
    requires p < |text| && IsStart(text[p])
    requires Forward(text, p + 1, [Matching(text[p])], nested, text[p]) == Found(q)
    requires !nested || Strays(text, p + 1, [Matching(text[p])], nested, text[p]) == 0
    ensures p < q < |text| && text[q] == Matching(text[p])
    ensures Backward(text, q, [Matching(text[q])], nested, text[q]) == Found(p)
  {
    DeepestFits(text, p + 1, [Matching(text[p])], nested, text[p], q);
    RoundTripWithinTheLimit(text, p, nested, q);
  }

  /** The text for which the round trip fails: more stray closers than the backward stack can hold. */
  lemma StraysDefeatTheWayBack(text: string)
    requires text == "(" + seq(1000, i => ']') + ")"
    ensures Forward(text, 1, [')'], true, '(') == Found(1001)
    ensures Backward(text, 1001, ['('], true, ')') == TooDeep
  {
    StraysPassed(text, 1);
    StraysStacked(text, MAX_NEST + 1, ['(']);
  }

  lemma {:induction false} StraysPassed(text: string, i: nat)
    requires text == "(" + seq(MAX_NEST, i => ']') + ")" && 1 <= i <= MAX_NEST + 1
    ensures Forward(text, i, [')'], true, '(') == Found(MAX_NEST + 1)
    decreases |text| - i
  {
    if i <= MAX_NEST {
      StraysPassed(text, i + 1);
    }
  }

  lemma {:induction false} StraysStacked(text: string, i: nat, stack: seq<char>)
    requires text == "(" + seq(MAX_NEST, i => ']') + ")" && stack != [] && i == MAX_NEST + 2 - |stack| && 2 <= i
    requires forall c | c in stack :: c != ']'
    ensures Backward(text, i, stack, true, ')') == TooDeep
    decreases i
  {
    assert stack[|stack| - 1] in stack && text[i - 1] == ']';
    if |stack| < MAX_NEST {
      StraysStacked(text, i - 1, stack + ['[']);
    }
  }

  // ----- Single-bracket counting -----

  /** Openers less closers of one kind between two positions. */
  function Balance(text: string, i: nat, j: nat, delim: char): int
    requires i <= j <= |text|
    decreases j - i
  {
    if i == j then 0
    else
      (if text[i] == delim then 1 else if text[i] == Matching(delim) then -1 else 0) + Balance(text, i + 1, j, delim)
  }

  /** Without nesting the scan finds the first position at which as many brackets of the one kind have closed as
      have opened, unless more than a thousand are open before. */
  lemma {:induction false} CountingFindsBalance(text: string, i: nat, stack: seq<char>, delim: char)
    requires i <= |text| && stack != [] && IsStart(delim) && forall c | c in stack :: c == Matching(delim)
    ensures var s := Forward(text, i, stack, false, delim);
            match s
            case Found(q) =>
              && i <= q < |text| && |stack| + Balance(text, i, q + 1, delim) == 0
              && forall j | i <= j <= q :: |stack| + Balance(text, i, j, delim) > 0
            case NotFound => forall j | i <= j <= |text| :: |stack| + Balance(text, i, j, delim) > 0
            case TooDeep => exists j | i <= j <= |text| :: |stack| + Balance(text, i, j, delim) > MAX_NEST
    decreases |text| - i
  {
    if i < |text| {
      var c, top := text[i], |stack| - 1;
      assert stack[top] in stack;
      var next := if c == stack[top] then stack[..top] else if c == delim then stack + [Matching(c)] else stack;
      assert forall j | i < j <= |text| ::
          Balance(text, i, j, delim) == |next| - |stack| + Balance(text, i + 1, j, delim);
      if c == delim && |stack| >= MAX_NEST {
        assert |stack| + Balance(text, i, i + 1, delim) > MAX_NEST;
      } else if next != [] {
        assert forall n | n in next :: n in stack || n == Matching(delim);
        CountingFindsBalance(text, i + 1, next, delim);
        if Forward(text, i + 1, next, false, delim).TooDeep? {
          var j :| i + 1 <= j <= |text| && |next| + Balance(text, i + 1, j, delim) > MAX_NEST;
          assert |stack| + Balance(text, i, j, delim) > MAX_NEST;
        }
      }
    }
  }

  // ----- Well-nested words -----

  datatype Word = Done | Plain(c: char, rest: Word) | Pair(open: char, inner: Word, rest: Word)

  ghost predicate Proper(w: Word) {
    match w
    case Done => true
    case Plain(c, rest) => !IsDelimiter(c) && Proper(rest)
    case Pair(open, inner, rest) => IsStart(open) && Proper(inner) && Proper(rest)
  }

  ghost function Text(w: Word): string {
    match w
    case Done => ""
    case Plain(c, rest) => [c] + Text(rest)
    case Pair(open, inner, rest) => [open] + Text(inner) + [Matching(open)] + Text(rest)
  }

  ghost function Depth(w: Word): nat {
    match w
    case Done => 0
    case Plain(_, rest) => Depth(rest)
    case Pair(_, inner, rest) => if Depth(inner) + 1 > Depth(rest) then Depth(inner) + 1 else Depth(rest)
  }

  lemma PartOf(text: string, i: nat, before: string, part: string, after: string)
    requires i + |before| + |part| + |after| <= |text|
    requires text[i..i + |before| + |part| + |after|] == before + part + after
    ensures text[i + |before|..i + |before| + |part|] == part
    ensures forall k | 0 <= k < |before| :: text[i + k] == before[k]
    ensures forall k | 0 <= k < |after| :: text[i + |before| + |part| + k] == after[k]
  {
    var whole := before + part + after;
    assert forall k | 0 <= k < |whole| :: text[i + k] == whole[k];
    forall k | 0 <= k < |part|
      ensures text[i + |before| + k] == part[k]
    {
      assert whole[|before| + k] == part[k];
    }
    forall k | 0 <= k < |after|
      ensures text[i + |before| + |part| + k] == after[k]
    {
      assert whole[|before| + |part| + k] == after[k];
    }
  }

  lemma PairParts(text: string, i: nat, open: char, inner: string, rest: string)
    requires i + |inner| + |rest| + 2 <= |text|
    requires text[i..i + |inner| + |rest| + 2] == [open] + inner + [Matching(open)] + rest
    ensures text[i] == open && text[i + 1..i + 1 + |inner|] == inner && text[i + 1 + |inner|] == Matching(open)
    ensures text[i + 2 + |inner|..i + 2 + |inner| + |rest|] == rest
  {
    assert [open] + inner + [Matching(open)] + rest == [open] + inner + ([Matching(open)] + rest);
    PartOf(text, i, [open], inner, [Matching(open)] + rest);
    assert [open] + inner + [Matching(open)] + rest == ([open] + inner + [Matching(open)]) + rest + "";
    PartOf(text, i, [open] + inner + [Matching(open)], rest, "");
    assert text[i + 1 + |inner|] == ([Matching(open)] + rest)[0];
  }

  lemma PlainCrossed(text: string, i: nat, stack: seq<char>, delim: char)
    requires i < |text| && !IsDelimiter(text[i]) && stack != [] && Closers(stack, true, delim)
    ensures Forward(text, i, stack, true, delim) == Forward(text, i + 1, stack, true, delim)
    ensures Strays(text, i, stack, true, delim) == Strays(text, i + 1, stack, true, delim)
  {
    assert stack[|stack| - 1] in stack;
  }

  lemma PairCrossed(text: string, i: nat, close: nat, stack: seq<char>, delim: char)
    requires i < close < |text| && IsStart(text[i]) && text[close] == Matching(text[i])
    requires 0 < |stack| < MAX_NEST && Closers(stack, true, delim)
    requires var grown := stack + [Matching(text[i])];
             && Forward(text, i + 1, grown, true, delim) == Forward(text, close, grown, true, delim)
             && Strays(text, i + 1, grown, true, delim) == Strays(text, close, grown, true, delim)
    ensures Forward(text, i, stack, true, delim) == Forward(text, close + 1, stack, true, delim)
    ensures Strays(text, i, stack, true, delim) == Strays(text, close + 1, stack, true, delim)
  {
    assert stack[|stack| - 1] in stack;
    var grown := stack + [Matching(text[i])];
    assert grown[..|stack|] == stack;
  }

  /** The forward scan crosses a well-nested word without strays and expects afterwards what it did before. */
  lemma {:induction false} WordCrossed(text: string, i: nat, w: Word, stack: seq<char>, delim: char)
    requires Proper(w) && stack != [] && Closers(stack, true, delim) && |stack| + Depth(w) <= MAX_NEST
    requires i + |Text(w)| <= |text| && text[i..i + |Text(w)|] == Text(w)
    ensures Forward(text, i, stack, true, delim) == Forward(text, i + |Text(w)|, stack, true, delim)
    ensures Strays(text, i, stack, true, delim) == Strays(text, i + |Text(w)|, stack, true, delim)
    decreases w
  {
    hide Forward, Strays;
    match w
    case Done =>
    case Plain(c, rest) =>
      assert Text(w) == [c] + Text(rest) + "";
      PartOf(text, i, [c], Text(rest), "");
      PlainCrossed(text, i, stack, delim);
      WordCrossed(text, i + 1, rest, stack, delim);
    case Pair(open, inner, rest) =>
      var grown, close := stack + [Matching(open)], i + 1 + |Text(inner)|;
      PairParts(text, i, open, Text(inner), Text(rest));
      WordCrossed(text, i + 1, inner, grown, delim);
      PairCrossed(text, i, close, stack, delim);
      WordCrossed(text, close + 1, rest, stack, delim);
  }

  /** Every well-nested word between a pair of brackets, in any text: both scans go from one bracket to the
      other, as long as the nesting is at most a thousand deep. */
  lemma WordRoundTrip(text: string, p: nat, open: char, w: Word)
    requires IsStart(open) && Proper(w) && Depth(w) < MAX_NEST
    requires p + |Text(w)| + 2 <= |text| && text[p..p + |Text(w)| + 2] == [open] + Text(w) + [Matching(open)]
    ensures var q := p + |Text(w)| + 1;
            && Forward(text, p + 1, [Matching(open)], true, open) == Found(q)
            && Backward(text, q, [open], true, text[q]) == Found(p)
  {
    var q := p + |Text(w)| + 1;
    PartOf(text, p, [open], Text(w), [Matching(open)]);
    assert text[q] == [Matching(open)][0];
    WordCrossed(text, p + 1, w, [Matching(open)], open);
    RoundTripWithoutStrays(text, p, true, q);
  }

  // ----- The matcher itself, quotes and escapes included -----

  datatype Flags = Flags(nestedPairs: bool, allowSingleQuotes: bool, allowDoubleQuotes: bool,
                         escapeSingleQuotes: bool, escapeDoubleQuotes: bool, backslashEscape: bool, percentEscape: bool)

  predicate HasBit(flags: nat, weight: nat)
    requires weight > 0
  {
    flags / weight % 2 == 1
  }

  function FlagsOf(flags: nat): Flags {
    Flags(HasBit(flags, 0x01), HasBit(flags, 0x02), HasBit(flags, 0x04), HasBit(flags, 0x08), HasBit(flags, 0x10),
          HasBit(flags, 0x20), HasBit(flags, 0x40))
  }

  /** Each flag by its bit, and the flags that are on by default: nesting and both escapes. */
  lemma FlagBits()
    ensures FlagsOf(0x01) == Flags(true, false, false, false, false, false, false)
    ensures FlagsOf(0x02) == Flags(false, true, false, false, false, false, false)
    ensures FlagsOf(0x04) == Flags(false, false, true, false, false, false, false)
    ensures FlagsOf(0x08) == Flags(false, false, false, true, false, false, false)
    ensures FlagsOf(0x10) == Flags(false, false, false, false, true, false, false)
    ensures FlagsOf(0x20) == Flags(false, false, false, false, false, true, false)
    ensures FlagsOf(0x40) == Flags(false, false, false, false, false, false, true)
    ensures FlagsOf(0x61) == Flags(true, false, false, false, false, true, true)
  {
  }

  datatype Match = Match(matchStart: nat, matchEnd: nat, backwards: bool)

  predicate Bare(flags: Flags) {
    !flags.allowSingleQuotes && !flags.allowDoubleQuotes && !flags.backslashEscape && !flags.percentEscape
  }

  predicate Escapes(flags: Flags, c: char) {
    (c == '\\' && flags.backslashEscape) || (c == '%' && flags.percentEscape)
  }

  predicate Quotes(flags: Flags, c: char) {
    (c == '"' && flags.allowDoubleQuotes) || (c == '\'' && flags.allowSingleQuotes)
  }

  predicate EscapedQuote(flags: Flags, c: char) {
    (flags.escapeSingleQuotes && c == '\'') || (flags.escapeDoubleQuotes && c == '"')
  }

  /** The escape characters that stand directly before a position. */
  function EscapesBefore(text: string, pos: nat, escapeChar: char): nat
    requires pos <= |text|
  {
    if pos > 0 && text[pos - 1] == escapeChar then 1 + EscapesBefore(text, pos - 1, escapeChar) else 0
  }

  /** An odd number of escape characters stands before a position; percent signs count only where no
      backslash does. */
  predicate IsEscaped(text: string, pos: nat, flags: Flags)
    requires pos <= |text|
  {
    var backslashes := if flags.backslashEscape then EscapesBefore(text, pos, '\\') else 0;
    var escapes := if backslashes == 0 && flags.percentEscape then EscapesBefore(text, pos, '%') else backslashes;
    escapes % 2 == 1
  }

  /** Where the quote opened at one position is closed, looking from position j on; the opening itself if nowhere. */
  function ClosingQuote(text: string, opening: nat, j: nat, flags: Flags): (end: nat)
    requires opening < j && opening < |text|
    ensures opening <= end < |text| && text[end] == text[opening]
    decreases |text| - j
  {
    if j >= |text| then opening
    else if text[j] == text[opening] then j
    else if Escapes(flags, text[j]) && EscapedQuote(flags, text[opening]) && j + 1 < |text| then
        ClosingQuote(text, opening, j + 2, flags)
    else ClosingQuote(text, opening, j + 1, flags)
  }

  /** The same to the left: where escapes count in quotes, an escape character hides what stands before it. */
  function OpeningQuote(text: string, closing: nat, j: int, flags: Flags): (start: nat)
    requires -2 <= j < closing < |text|
    ensures start <= closing && text[start] == text[closing]
    decreases j + 2
  {
    if j < 0 then closing
    else if Escapes(flags, text[j]) && EscapedQuote(flags, text[closing]) then OpeningQuote(text, closing, j - 2, flags)
    else if text[j] == text[closing] then j
    else OpeningQuote(text, closing, j - 1, flags)
  }

  /** The forward scan with every option. */
  function ForwardWith(text: string, i: nat, stack: seq<char>, flags: Flags, delim: char): Scan
    requires stack != []
    decreases |text| - i
  {
    if i >= |text| then NotFound
    else
      var c, top := text[i], |stack| - 1;
      if c == stack[top] then
        if top == 0 then Found(i) else ForwardWith(text, i + 1, stack[..top], flags, delim)
      else if (flags.nestedPairs && IsStart(c)) || (!flags.nestedPairs && c == delim) then
        if |stack| >= MAX_NEST then TooDeep else ForwardWith(text, i + 1, stack + [Matching(c)], flags, delim)
      else if Escapes(flags, c) then ForwardWith(text, if i + 1 < |text| then i + 2 else i + 1, stack, flags, delim)
      else if Quotes(flags, c) then ForwardWith(text, ClosingQuote(text, i, i + 1, flags) + 1, stack, flags, delim)
      else ForwardWith(text, i + 1, stack, flags, delim)
  }

  /** The backward scan with every option: escaped characters are passed over. */
  function BackwardWith(text: string, i: nat, stack: seq<char>, flags: Flags, delim: char): Scan
    requires stack != [] && i <= |text|
    decreases i, |stack|
  {
    if i == 0 then NotFound
    else
      var c, top := text[i - 1], |stack| - 1;
      if IsEscaped(text, i - 1, flags) then BackwardWith(text, i - 1, stack, flags, delim)
      else if c == stack[top] then
        if top == 0 then Found(i - 1) else BackwardWith(text, i - 1, stack[..top], flags, delim)
      else if flags.nestedPairs && IsStart(c) then
        if top == 0 then NotFound else BackwardWith(text, i, stack[..top], flags, delim)
      else if (flags.nestedPairs && IsEnd(c)) || (!flags.nestedPairs && c == delim) then
        if |stack| >= MAX_NEST then TooDeep else BackwardWith(text, i - 1, stack + [Matching(c)], flags, delim)
      else if Quotes(flags, c) then BackwardWith(text, OpeningQuote(text, i - 1, i - 2, flags), stack, flags, delim)
      else BackwardWith(text, i - 1, stack, flags, delim)
  }

  /** Without quotes and escapes the scans are the plain ones. */
  lemma {:induction false} BareForward(text: string, i: nat, stack: seq<char>, flags: Flags, delim: char)
    requires stack != [] && i <= |text| && Bare(flags)
    ensures ForwardWith(text, i, stack, flags, delim) == Forward(text, i, stack, flags.nestedPairs, delim)
    decreases |text| - i
  {
    if i < |text| {
      var c, top := text[i], |stack| - 1;
      if c == stack[top] {
        if top > 0 {
          BareForward(text, i + 1, stack[..top], flags, delim);
        }
      } else if (flags.nestedPairs && IsStart(c)) || (!flags.nestedPairs && c == delim) {
        BareForward(text, i + 1, stack + [Matching(c)], flags, delim);
      } else {
        BareForward(text, i + 1, stack, flags, delim);
      }
    }
  }

  lemma {:induction false} BareBackward(text: string, i: nat, stack: seq<char>, flags: Flags, delim: char)
    requires stack != [] && i <= |text| && Bare(flags)
    ensures BackwardWith(text, i, stack, flags, delim) == Backward(text, i, stack, flags.nestedPairs, delim)
    decreases i, |stack|
  {
    if i > 0 {
      var c, top := text[i - 1], |stack| - 1;
      if c == stack[top] {
        if top > 0 {
          BareBackward(text, i - 1, stack[..top], flags, delim);
        }
      } else if flags.nestedPairs && IsStart(c) {
        if top > 0 {
          BareBackward(text, i, stack[..top], flags, delim);
        }
      } else if (flags.nestedPairs && IsEnd(c)) || (!flags.nestedPairs && c == delim) {
        BareBackward(text, i - 1, stack + [Matching(c)], flags, delim);
      } else {
        BareBackward(text, i - 1, stack, flags, delim);
      }
    }
  }

  method CountEscapesBackward(text: string, pos: nat, escapeChar: char) returns (count: nat)
    requires pos <= |text|
    ensures count == EscapesBefore(text, pos, escapeChar)
  {
    count := 0;
    var p := pos;
    while p > 0 && text[p - 1] == escapeChar
      invariant 0 <= p <= pos && EscapesBefore(text, pos, escapeChar) == count + EscapesBefore(text, p, escapeChar)
    {
      p, count := p - 1, count + 1;
    }
  }

  /** Whether an odd number of escape characters stands before a position. */
  method Escaped(text: string, pos: nat, flags: Flags) returns (escaped: bool)
    requires pos <= |text|
    ensures escaped == IsEscaped(text, pos, flags)
  {
    var escapeCount := 0;
    if flags.backslashEscape {
      escapeCount := CountEscapesBackward(text, pos, '\\');
    }
    if escapeCount == 0 && flags.percentEscape {
      escapeCount := CountEscapesBackward(text, pos, '%');
    }
    escaped := escapeCount % 2 == 1;
  }

  /** The forward loop: every access stays in bounds for every combination of flags. */
  method ScanForward(text: string, pos: nat, flags: Flags) returns (result: Scan)
    requires pos < |text| && IsStart(text[pos])
    ensures result.Found? ==> pos < result.at < |text| && text[result.at] == Matching(text[pos])
    ensures result == ForwardWith(text, pos + 1, [Matching(text[pos])], flags, text[pos])
  {
    var startDelim := text[pos];
    var nestArray := new char[MAX_NEST];
    var level := 0;
    nestArray[0] := Matching(startDelim);
    assert nestArray[..1] == [Matching(startDelim)];
    var i: nat := pos + 1;
    while i < |text|
      invariant pos < i && 0 <= level < MAX_NEST && nestArray[0] == Matching(startDelim)
      invariant ForwardWith(text, pos + 1, [Matching(startDelim)], flags, startDelim) ==
                ForwardWith(text, i, nestArray[..level + 1], flags, startDelim)
      decreases |text| - i
    {
      var c := text[i];
      ghost var stack := nestArray[..level + 1];
      if c == nestArray[level] {
        if level <= 0 {
          return Found(i);
        }
        level := level - 1;
        assert nestArray[..level + 1] == stack[..level + 1];
      } else if (flags.nestedPairs && IsStart(c)) || (!flags.nestedPairs && c == startDelim) {
        level := level + 1;
        if level >= MAX_NEST {
          return TooDeep;
        }
        nestArray[level] := Matching(c);
        assert nestArray[..level + 1] == stack + [Matching(c)];
      } else if Escapes(flags, c) {
        if i + 1 < |text| {
          i := i + 1;
        }
      } else if Quotes(flags, c) {
        i := SkipQuotedForward(text, i, flags);
      }
      i := i + 1;
    }
    result := NotFound;
  }

  /** The position of the closing quote, or of the opening one when there is none. */
  method SkipQuotedForward(text: string, i: nat, flags: Flags) returns (end: nat)
    requires i < |text|
    ensures end == ClosingQuote(text, i, i + 1, flags)
  {
    var j := i + 1;
    while j < |text|
      invariant i < j && ClosingQuote(text, i, i + 1, flags) == ClosingQuote(text, i, j, flags)
    {
      if text[j] == text[i] {
        return j;
      } else if Escapes(flags, text[j]) && EscapedQuote(flags, text[i]) {
        if j + 1 < |text| {
          j := j + 1;
        }
      }
      j := j + 1;
    }
    end := i;
  }

  /** The backward loop. Looking at an opener again keeps the position and lowers the level. */
  method ScanBackward(text: string, pos: nat, flags: Flags) returns (result: Scan)
    requires pos < |text| && IsEnd(text[pos])
    ensures result.Found? ==> result.at < pos && text[result.at] == Matching(text[pos])
    ensures result == BackwardWith(text, pos, [Matching(text[pos])], flags, text[pos])
  {
    var startDelim := text[pos];
    var nestArray := new char[MAX_NEST];
    var level := 0;
    nestArray[0] := Matching(startDelim);
    assert nestArray[..1] == [Matching(startDelim)];
    var i: nat := pos;
    while i > 0
      invariant i <= pos && 0 <= level < MAX_NEST && nestArray[0] == Matching(startDelim)
      invariant BackwardWith(text, pos, [Matching(startDelim)], flags, startDelim) ==
                BackwardWith(text, i, nestArray[..level + 1], flags, startDelim)
      decreases i, level
    {
      i := i - 1;
      var c := text[i];
      ghost var stack := nestArray[..level + 1];
      var escaped := Escaped(text, i, flags);
      if escaped {
        continue;
      }
      if c == nestArray[level] {
        if level <= 0 {
          return Found(i);
        }
        level := level - 1;
        assert nestArray[..level + 1] == stack[..level + 1];
      } else if flags.nestedPairs && IsStart(c) {
        if level <= 0 {
          return NotFound;
        }
        level := level - 1;
        assert nestArray[..level + 1] == stack[..level + 1];
        i := i + 1;
      } else if (flags.nestedPairs && IsEnd(c)) || (!flags.nestedPairs && c == startDelim) {
        level := level + 1;
        if level >= MAX_NEST {
          return TooDeep;
        }
        nestArray[level] := Matching(c);
        assert nestArray[..level + 1] == stack + [Matching(c)];
      } else if Quotes(flags, c) {
        i := SkipQuotedBackward(text, i, flags);
      }
    }
    result := NotFound;
  }

  /** The position of the opening quote, or of the closing one when there is none. */
  method SkipQuotedBackward(text: string, i: nat, flags: Flags) returns (start: nat)
    requires i < |text|
    ensures start == OpeningQuote(text, i, i - 1, flags)
  {
    var j: int := i - 1;
    while j >= 0
      invariant -2 <= j < i && OpeningQuote(text, i, i - 1, flags) == OpeningQuote(text, i, j, flags)
      decreases j + 2
    {
      if Escapes(flags, text[j]) && EscapedQuote(flags, text[i]) {
        j := j - 1;
      } else if text[j] == text[i] {
        return j;
      }
      j := j - 1;
    }
    start := i;
  }

  /** The position that is examined: the one at the cursor, or the one before it. */
  function Examined(text: string, end: int): (pos: int)
    requires 0 <= end <= |text| && text != ""
    ensures 0 <= pos < |text|
  {
    if end == |text| then end - 1 else if end > 0 && !IsDelimiter(text[end]) then end - 1 else end
  }

  /** What the scans make of the examined position. */
  function MatchAt(text: string, end: int, flags: Flags): Option<Match> {
    if text == "" || end < 0 || end > |text| then None
    else
      var pos := Examined(text, end);
      if IsEscaped(text, pos, flags) then None
      else if IsStart(text[pos]) then
        var s := ForwardWith(text, pos + 1, [Matching(text[pos])], flags, text[pos]);
        if s.Found? then Some(Match(pos, s.at, false)) else None
      else if IsEnd(text[pos]) then
        var s := BackwardWith(text, pos, [Matching(text[pos])], flags, text[pos]);
        if s.Found? then Some(Match(s.at, pos, true)) else None
      else None
  }

  /** The matcher as its callers see it: a match is a pair of matching delimiters in order, one of them at
      the examined position. */
  method FindMatchingBrace(text: string, end: int, flags: Flags) returns (result: Option<Match>)
    ensures result == MatchAt(text, end, flags)
    ensures result.Some? ==>
              var m := result.value;
              && 0 <= end <= |text| && m.matchStart < m.matchEnd < |text|
              && IsStart(text[m.matchStart]) && text[m.matchEnd] == Matching(text[m.matchStart])
              && Examined(text, end) == if m.backwards then m.matchEnd else m.matchStart
  {
    if text == "" || end < 0 || end > |text| {
      return None;
    }
    var pos := Examined(text, end);
    var escaped := Escaped(text, pos, flags);
    if escaped || !IsDelimiter(text[pos]) {
      return None;
    }
    if IsStart(text[pos]) {
      var s := ScanForward(text, pos, flags);
      result := if s.Found? then Some(Match(pos, s.at, false)) else None;
    } else {
      var s := ScanBackward(text, pos, flags);
      result := if s.Found? then Some(Match(s.at, pos, true)) else None;
    }
  }

  /** The round trip of the matcher itself: from a match found forwards, placing the cursor at its closer finds
      the same match backwards, if and only if the way back is not too deep. */
  lemma MatcherRoundTrip(text: string, end: int, flags: Flags)
    requires Bare(flags) && MatchAt(text, end, flags).Some? && !MatchAt(text, end, flags).value.backwards
    ensures var m := MatchAt(text, end, flags).value;
            && m.matchStart < m.matchEnd < |text| && IsStart(text[m.matchStart])
            && (MatchAt(text, m.matchEnd, flags) == Some(m.(backwards := true)) <==>
                Peak(text, m.matchStart + 1, [Matching(text[m.matchStart])], flags.nestedPairs,
                     text[m.matchStart]) <= MAX_NEST)
  {
    hide MatchAt, Forward, Backward, ForwardWith, BackwardWith, Peak, Pending;
    var m := MatchAt(text, end, flags).value;
    var p, q := m.matchStart, m.matchEnd;
    MatchedForwards(text, end, flags);
    BareForward(text, p + 1, [Matching(text[p])], flags, text[p]);
    RoundTrip(text, p, flags.nestedPairs, q);
    BareBackward(text, q, [Matching(text[q])], flags, text[q]);
    MatchedBackwards(text, q, flags);
  }

  lemma MatchedForwards(text: string, end: int, flags: Flags)
    requires MatchAt(text, end, flags).Some? && !MatchAt(text, end, flags).value.backwards
    ensures var m := MatchAt(text, end, flags).value;
            && m.matchStart < |text| && IsStart(text[m.matchStart])
            && ForwardWith(text, m.matchStart + 1, [Matching(text[m.matchStart])], flags, text[m.matchStart]) ==
                  Found(m.matchEnd)
  {
    hide ForwardWith, BackwardWith;
  }

  lemma MatchedBackwards(text: string, q: nat, flags: Flags)
    requires q < |text| && IsEnd(text[q]) && Bare(flags)
    ensures var back := BackwardWith(text, q, [Matching(text[q])], flags, text[q]);
            MatchAt(text, q, flags) == if back.Found? then Some(Match(back.at, q, true)) else None
  {
    hide ForwardWith, BackwardWith;
  }
}
