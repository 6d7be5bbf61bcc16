/** What quotes and escapes mean to the brace matcher: with any flags, each scan is the plain scan of a text in
    which the characters it must not see are blanked out. Which ones these are is said by position. */
module BraceMask {
  import opened Wrappers
  import opened BraceMatch

  // ----- The flags, by the characters they are about -----

  function EscapeChars(flags: Flags): set<char> {
    (if flags.backslashEscape then {'\\'} else {}) + if flags.percentEscape then {'%'} else {}
  }

  function QuoteChars(flags: Flags): set<char> {
    (if flags.allowSingleQuotes then {'\''} else {}) + if flags.allowDoubleQuotes then {'"'} else {}
  }

  /** The quotes within which escapes count. */
  function EscapingQuotes(flags: Flags): set<char> {
    (if flags.escapeSingleQuotes then {'\''} else {}) + if flags.escapeDoubleQuotes then {'"'} else {}
  }

  lemma FlagsMean(flags: Flags, c: char)
    ensures Escapes(flags, c) <==> c in EscapeChars(flags)
    ensures Quotes(flags, c) <==> c in QuoteChars(flags)
    ensures EscapedQuote(flags, c) <==> c in EscapingQuotes(flags)
    ensures c in EscapeChars(flags) ==> c !in QuoteChars(flags) && c !in EscapingQuotes(flags) && !IsDelimiter(c)
    ensures c in QuoteChars(flags) ==> !IsDelimiter(c)
  {
  }

  // ----- Odd runs -----

  ghost predicate AllIn(text: string, lo: nat, hi: nat, chars: set<char>) {
    lo <= hi <= |text| && forall x | lo <= x < hi :: text[x] in chars
  }

  /** The run of the characters that ends before a position starts at another. */
  ghost predicate StartsRun(text: string, k: nat, pos: nat, chars: set<char>) {
    k <= pos <= |text| && AllIn(text, k, pos, chars) && (k == 0 || text[k - 1] !in chars)
  }

  ghost predicate EndsRun(text: string, pos: nat, k: nat, chars: set<char>) {
    pos < k <= |text| && AllIn(text, pos + 1, k, chars) && (k == |text| || text[k] !in chars)
  }

  /** An odd number of the characters stands directly before a position. */
  ghost predicate OddBefore(text: string, pos: nat, chars: set<char>)
    requires pos <= |text|
  {
    exists k: nat :: StartsRun(text, k, pos, chars) && (pos - k) % 2 == 1
  }

  /** An odd number of the characters stands directly behind a position. */
  ghost predicate OddAfter(text: string, pos: nat, chars: set<char>)
    requires pos < |text|
  {
    exists k: nat :: EndsRun(text, pos, k, chars) && (k - pos - 1) % 2 == 1
  }

  lemma Reaches(text: string, lo: nat, hi: nat, chars: set<char>, x: nat)
    requires AllIn(text, lo, hi, chars) && lo <= x < hi
    ensures text[x] in chars
  {
  }

  lemma OneStart(text: string, k: nat, j: nat, pos: nat, chars: set<char>)
    requires StartsRun(text, k, pos, chars) && StartsRun(text, j, pos, chars)
    ensures k == j
  {
    hide AllIn;
    if j < k {
      Reaches(text, j, pos, chars, k - 1);
    } else if k < j {
      Reaches(text, k, pos, chars, j - 1);
    }
  }

  lemma {:induction false} RunBefore(text: string, pos: nat, chars: set<char>) returns (k: nat)
    requires pos <= |text|
    ensures StartsRun(text, k, pos, chars) && (OddBefore(text, pos, chars) <==> (pos - k) % 2 == 1)
    decreases pos
  {
    k := pos;
    if pos > 0 && text[pos - 1] in chars {
      k := RunBefore(text, pos - 1, chars);
    }
    assert StartsRun(text, k, pos, chars);
    hide StartsRun;
    if j: nat :| StartsRun(text, j, pos, chars) && (pos - j) % 2 == 1 {
      OneStart(text, k, j, pos, chars);
    }
  }

  lemma OddStep(text: string, pos: nat, chars: set<char>)
    requires pos < |text|
    ensures OddBefore(text, pos + 1, chars) <==> text[pos] in chars && !OddBefore(text, pos, chars)
    ensures !OddBefore(text, 0, chars)
  {
    var k := RunBefore(text, pos, chars);
    var j := RunBefore(text, pos + 1, chars);
    var _ := RunBefore(text, 0, chars);
    hide OddBefore;
    if text[pos] in chars {
      assert StartsRun(text, k, pos + 1, chars);
      OneStart(text, k, j, pos + 1, chars);
    } else {
      assert StartsRun(text, pos + 1, pos + 1, chars);
      OneStart(text, pos + 1, j, pos + 1, chars);
    }
  }

  lemma OneEndOfRun(text: string, pos: nat, k: nat, j: nat, chars: set<char>)
    requires EndsRun(text, pos, k, chars) && EndsRun(text, pos, j, chars)
    ensures k == j
  {
    hide AllIn;
    if j < k {
      Reaches(text, pos + 1, k, chars, j);
    } else if k < j {
      Reaches(text, pos + 1, j, chars, k);
    }
  }

  lemma {:induction false} RunAfter(text: string, pos: nat, chars: set<char>) returns (k: nat)
    requires pos < |text|
    ensures EndsRun(text, pos, k, chars) && (OddAfter(text, pos, chars) <==> (k - pos - 1) % 2 == 1)
    decreases |text| - pos
  {
    k := pos + 1;
    if pos + 1 < |text| && text[pos + 1] in chars {
      k := RunAfter(text, pos + 1, chars);
    }
    assert EndsRun(text, pos, k, chars);
    hide EndsRun;
    if j: nat :| EndsRun(text, pos, j, chars) && (j - pos - 1) % 2 == 1 {
      OneEndOfRun(text, pos, k, j, chars);
    }
  }

  lemma OddAfterStep(text: string, pos: nat, chars: set<char>)
    requires pos < |text|
    ensures OddAfter(text, pos, chars) <==>
            pos + 1 < |text| && text[pos + 1] in chars && !OddAfter(text, pos + 1, chars)
  {
    var k := RunAfter(text, pos, chars);
    if pos + 1 < |text| && text[pos + 1] in chars {
      var j := RunAfter(text, pos + 1, chars);
      hide OddAfter;
      assert EndsRun(text, pos, j, chars);
      OneEndOfRun(text, pos, k, j, chars);
    } else {
      hide OddAfter;
      assert EndsRun(text, pos, pos + 1, chars);
      OneEndOfRun(text, pos, k, pos + 1, chars);
    }
  }

  /** A position behind an odd run of backslashes, or of percent signs, where these escape. */
  ghost predicate EscapedAt(text: string, pos: nat, flags: Flags)
    requires pos <= |text|
  {
    (flags.backslashEscape && OddBefore(text, pos, {'\\'})) || (flags.percentEscape && OddBefore(text, pos, {'%'}))
  }

  lemma {:induction false} EscapesCounted(text: string, pos: nat, c: char)
    requires pos <= |text|
    ensures EscapesBefore(text, pos, c) % 2 == 1 <==> OddBefore(text, pos, {c})
    ensures EscapesBefore(text, pos, c) == 0 <==> pos == 0 || text[pos - 1] != c
    decreases pos
  {
    if pos > 0 {
      EscapesCounted(text, pos - 1, c);
      OddStep(text, pos - 1, {c});
    } else {
      var _ := RunBefore(text, 0, {c});
    }
  }

  lemma IsEscapedMeans(text: string, pos: nat, flags: Flags)
    requires pos <= |text|
    ensures IsEscaped(text, pos, flags) <==> EscapedAt(text, pos, flags)
  {
    EscapesCounted(text, pos, '\\');
    EscapesCounted(text, pos, '%');
    if pos > 0 {
      OddStep(text, pos - 1, {'%'});
      OddStep(text, pos - 1, {'\\'});
    }
    hide OddBefore;
  }

  // ----- Blanking out -----

  /** A quoted part of a text, by its two quotes. */
  datatype Quoted = Quoted(open: nat, close: nat)

  ghost predicate Within(quotes: seq<Quoted>, x: int) {
    exists q | q in quotes :: q.open <= x <= q.close
  }

  ghost predicate Between(quotes: seq<Quoted>, x: int) {
    exists q | q in quotes :: q.open < x < q.close
  }

  /** In a quoted part, behind its opening. */
  ghost predicate Inside(quotes: seq<Quoted>, x: int) {
    exists q | q in quotes :: q.open < x <= q.close
  }

  ghost predicate Apart(quotes: seq<Quoted>) {
    forall a, b | 0 <= a < b < |quotes| :: quotes[a].close < quotes[b].open
  }

  // ----- Forwards -----

  /** A quote that an escape hides from the quote opened before it. */
  ghost predicate HiddenIn(text: string, open: nat, x: nat, flags: Flags)
    requires open < |text| && x <= |text|
  {
    text[open] in EscapingQuotes(flags) && OddBefore(text, x, EscapeChars(flags))
  }

  /** A quote that is not escaped, and the next one of its kind that is not hidden from it. */
  ghost predicate Closes(text: string, q: Quoted, flags: Flags) {
    && q.open < q.close < |text| && text[q.open] in QuoteChars(flags) && !OddBefore(text, q.open, EscapeChars(flags))
    && text[q.close] == text[q.open] && !HiddenIn(text, q.open, q.close, flags)
    && forall x | q.open < x < q.close && text[x] == text[q.open] :: HiddenIn(text, q.open, x, flags)
  }

  ghost predicate NeverClosed(text: string, open: nat, flags: Flags)
    requires open < |text|
  {
    forall x | open < x < |text| && text[x] == text[open] :: HiddenIn(text, open, x, flags)
  }

  /** The quoted parts from a position on: every quote that is neither escaped nor quoted opens one, unless it is
      never closed. */
  ghost predicate QuotedFrom(text: string, from: nat, flags: Flags, quotes: seq<Quoted>) {
    && Apart(quotes) && (forall q | q in quotes :: from <= q.open && Closes(text, q, flags))
    && forall x | from <= x < |text| && text[x] in QuoteChars(flags) && !OddBefore(text, x, EscapeChars(flags))
                  && !Within(quotes, x) :: NeverClosed(text, x, flags)
  }

  /** The text without what a scan to the right must not see: escaped characters, and what stands in quotes. */
  ghost function ForwardMask(text: string, flags: Flags, quotes: seq<Quoted>): (masked: string)
    ensures |masked| == |text|
  {
    seq(|text|, x requires 0 <= x < |text| =>
      if OddBefore(text, x, EscapeChars(flags)) || Between(quotes, x) then ' ' else text[x])
  }

  lemma {:induction false} ClosingQuoteMeans(text: string, open: nat, j: nat, flags: Flags)
    requires open < |text| && open < j && text[open] in QuoteChars(flags)
    requires !OddBefore(text, open, EscapeChars(flags))
    requires forall x | open < x < j && x < |text| && text[x] == text[open] :: HiddenIn(text, open, x, flags)
    requires j < |text| ==> !HiddenIn(text, open, j, flags)
    ensures var e := ClosingQuote(text, open, j, flags);
            if e == open then NeverClosed(text, open, flags) else e >= j && Closes(text, Quoted(open, e), flags)
    decreases |text| - j
  {
    if j < |text| {
      FlagsMean(flags, text[j]);
      FlagsMean(flags, text[open]);
      OddStep(text, j, EscapeChars(flags));
      if text[j] != text[open] {
        if Escapes(flags, text[j]) && EscapedQuote(flags, text[open]) && j + 1 < |text| {
          OddStep(text, j + 1, EscapeChars(flags));
          hide OddBefore;
          ClosingQuoteMeans(text, open, j + 2, flags);
        } else {
          hide OddBefore;
          ClosingQuoteMeans(text, open, j + 1, flags);
        }
      }
    }
  }

  /** Every text has its quoted parts, from any position that is not escaped. */
  lemma {:induction false} QuotedPartsFrom(text: string, i: nat, flags: Flags) returns (quotes: seq<Quoted>)
    requires i <= |text| && !OddBefore(text, i, EscapeChars(flags))
    ensures QuotedFrom(text, i, flags, quotes)
    decreases |text| - i
  {
    quotes := [];
    if i < |text| {
      FlagsMean(flags, text[i]);
      OddStep(text, i, EscapeChars(flags));
      if text[i] in EscapeChars(flags) {
        if i + 1 < |text| {
          OddStep(text, i + 1, EscapeChars(flags));
          hide OddBefore;
          quotes := QuotedPartsFrom(text, i + 2, flags);
        }
      } else if text[i] in QuoteChars(flags) {
        ClosingQuoteMeans(text, i, i + 1, flags);
        var e := ClosingQuote(text, i, i + 1, flags);
        FlagsMean(flags, text[e]);
        OddStep(text, e, EscapeChars(flags));
        hide OddBefore, NeverClosed, Closes;
        var rest := QuotedPartsFrom(text, e + 1, flags);
        quotes := if e == i then rest else [Quoted(i, e)] + rest;
        PartsInFront(text, i, e, flags, rest);
      } else {
        hide OddBefore;
        quotes := QuotedPartsFrom(text, i + 1, flags);
      }
    }
  }

  lemma PartsInFront(text: string, i: nat, e: nat, flags: Flags, rest: seq<Quoted>)
    requires i <= e < |text| && QuotedFrom(text, e + 1, flags, rest)
    requires if e == i then NeverClosed(text, i, flags) else Closes(text, Quoted(i, e), flags)
    ensures QuotedFrom(text, i, flags, if e == i then rest else [Quoted(i, e)] + rest)
  {
    hide NeverClosed, Closes, OddBefore;
    var quotes := if e == i then rest else [Quoted(i, e)] + rest;
    forall x | i <= x < |text| && !Within(quotes, x)
      ensures x == i || (e < x && !Within(rest, x))
    {
      if e != i {
        assert Quoted(i, e) in quotes;
      }
      assert forall q | q in rest :: q in quotes;
    }
    if e != i {
      forall a, b | 0 <= a < b < |quotes|
        ensures quotes[a].close < quotes[b].open
      {
        assert quotes[b] == rest[b - 1] && rest[b - 1] in rest;
        assert a > 0 ==> quotes[a] == rest[a - 1];
      }
    }
  }

  /** A scan stands neither on an escaped character nor in quotes. */
  ghost predicate Sees(text: string, i: nat, flags: Flags, quotes: seq<Quoted>) {
    i <= |text| && !OddBefore(text, i, EscapeChars(flags)) && !Inside(quotes, i)
  }

  ghost predicate Delimiters(stack: seq<char>) {
    stack != [] && forall c | c in stack :: IsDelimiter(c)
  }

  /** The plain scan passes over what is no delimiter. */
  lemma {:induction false} PlainPasses(text: string, i: nat, j: nat, stack: seq<char>, nested: bool, delim: char)
    requires i <= j <= |text| && Delimiters(stack) && IsDelimiter(delim)
    requires forall x | i <= x < j :: !IsDelimiter(text[x])
    ensures Forward(text, i, stack, nested, delim) == Forward(text, j, stack, nested, delim)
    decreases j - i
  {
    if i < j {
      assert stack[|stack| - 1] in stack;
      PlainPasses(text, i + 1, j, stack, nested, delim);
    }
  }

  /** What the scan sees next behind an escape, a quote or a plain character. */
  lemma NextSeen(text: string, i: nat, flags: Flags, from: nat, quotes: seq<Quoted>)
    requires from <= i < |text| && QuotedFrom(text, from, flags, quotes) && Sees(text, i, flags, quotes)
    ensures ForwardMask(text, flags, quotes)[i] == text[i]
    ensures text[i] in EscapeChars(flags) && i + 1 < |text| ==>
              Sees(text, i + 2, flags, quotes) && ForwardMask(text, flags, quotes)[i + 1] == ' '
    ensures text[i] !in EscapeChars(flags) && text[i] !in QuoteChars(flags) ==> Sees(text, i + 1, flags, quotes)
  {
    OddStep(text, i, EscapeChars(flags));
    if i + 1 < |text| {
      OddStep(text, i + 1, EscapeChars(flags));
    }
    FlagsMean(flags, text[i]);
    hide OddBefore;
  }

  /** Where a quote that the scan sees is closed: the quoted part of the parse, or nowhere. */
  lemma QuoteSeen(text: string, i: nat, flags: Flags, from: nat, quotes: seq<Quoted>)
    requires from <= i < |text| && QuotedFrom(text, from, flags, quotes) && Sees(text, i, flags, quotes)
    requires text[i] in QuoteChars(flags)
    ensures var e := ClosingQuote(text, i, i + 1, flags);
            && Sees(text, e + 1, flags, quotes)
            && forall x | i <= x <= e :: !IsDelimiter(ForwardMask(text, flags, quotes)[x])
  {
    hide OddBefore, QuotedFrom, Inside, ForwardMask, Closes, NeverClosed, ClosingQuote;
    FlagsMean(flags, text[i]);
    OddStep(text, i, EscapeChars(flags));
    ClosingQuoteMeans(text, i, i + 1, flags);
    var e := ClosingQuote(text, i, i + 1, flags);
    OddStep(text, e, EscapeChars(flags));
    if e != i {
      var q := OpensHere(text, i, e, flags, from, quotes);
      EndsThere(text, q, e, flags);
      InOrderFrom(text, from, flags, quotes, q);
      NotInsideBehind(q, quotes);
      BlankForwards(text, q, flags, quotes);
    } else {
      NotInsideUnclosed(text, i, flags, from, quotes);
      NextSeen(text, i, flags, from, quotes);
    }
  }

  lemma InOrderFrom(text: string, from: nat, flags: Flags, quotes: seq<Quoted>, q: Quoted)
    requires QuotedFrom(text, from, flags, quotes) && q in quotes
    ensures Apart(quotes) && (forall r | r in quotes :: r.open < r.close)
    ensures q.close < |text| && text[q.open] == text[q.close] && text[q.open] in QuoteChars(flags)
  {
  }

  /** A quoted part shows no delimiter. */
  lemma BlankForwards(text: string, q: Quoted, flags: Flags, quotes: seq<Quoted>)
    requires q in quotes && q.open < q.close < |text| && text[q.open] == text[q.close]
    requires text[q.open] in QuoteChars(flags)
    ensures forall x | q.open <= x <= q.close :: !IsDelimiter(ForwardMask(text, flags, quotes)[x])
  {
    hide OddBefore;
    FlagsMean(flags, text[q.open]);
  }

  /** The quote opens a part of the parse. */
  lemma OpensHere(text: string, i: nat, e: nat, flags: Flags, from: nat, quotes: seq<Quoted>) returns (q: Quoted)
    requires from <= i < |text| && QuotedFrom(text, from, flags, quotes) && Sees(text, i, flags, quotes)
    requires text[i] in QuoteChars(flags) && Closes(text, Quoted(i, e), flags)
    ensures q in quotes && q.open == i && Closes(text, q, flags)
  {
    hide OddBefore;
    assert !NeverClosed(text, i, flags);
    q :| q in quotes && q.open <= i <= q.close;
  }

  lemma EndsThere(text: string, q: Quoted, e: nat, flags: Flags)
    requires Closes(text, q, flags) && Closes(text, Quoted(q.open, e), flags)
    ensures q.close == e
  {
    hide HiddenIn, OddBefore;
  }

  lemma NotInsideBehind(q: Quoted, quotes: seq<Quoted>)
    requires Apart(quotes) && q in quotes && forall r | r in quotes :: r.open < r.close
    ensures !Inside(quotes, q.close + 1)
  {
    var k :| 0 <= k < |quotes| && quotes[k] == q;
    forall r | r in quotes
      ensures !(r.open < q.close + 1 <= r.close)
    {
      var j :| 0 <= j < |quotes| && quotes[j] == r;
    }
  }

  lemma NotInsideUnclosed(text: string, i: nat, flags: Flags, from: nat, quotes: seq<Quoted>)
    requires from <= i < |text| && QuotedFrom(text, from, flags, quotes) && !Inside(quotes, i)
    requires NeverClosed(text, i, flags)
    ensures !Inside(quotes, i + 1)
  {
    hide HiddenIn, OddBefore;
  }

  /** With any flags, the scan to the right is the plain scan of the text in which escaped characters and what
      stands in quotes are blanked out. */
  lemma {:induction false} ForwardIsMasked(text: string, i: nat, stack: seq<char>, flags: Flags, delim: char, from: nat,
                                           quotes: seq<Quoted>)
    requires from <= i && QuotedFrom(text, from, flags, quotes) && Sees(text, i, flags, quotes)
    requires Delimiters(stack) && IsDelimiter(delim)
    ensures ForwardWith(text, i, stack, flags, delim) ==
            Forward(ForwardMask(text, flags, quotes), i, stack, flags.nestedPairs, delim)
    decreases |text| - i
  {
    hide OddBefore, ForwardMask, QuotedFrom, Sees;
    SeesWithin(text, i, flags, quotes);
    if i < |text| {
      var c, top, masked := text[i], |stack| - 1, ForwardMask(text, flags, quotes);
      assert stack[top] in stack;
      NextSeen(text, i, flags, from, quotes);
      FlagsMean(flags, c);
      if c == stack[top] {
        if top > 0 {
          ForwardIsMasked(text, i + 1, stack[..top], flags, delim, from, quotes);
        }
      } else if (flags.nestedPairs && IsStart(c)) || (!flags.nestedPairs && c == delim) {
        ForwardIsMasked(text, i + 1, stack + [Matching(c)], flags, delim, from, quotes);
      } else if Escapes(flags, c) {
        if i + 1 < |text| {
          ForwardIsMasked(text, i + 2, stack, flags, delim, from, quotes);
          PlainPasses(masked, i, i + 2, stack, flags.nestedPairs, delim);
        }
      } else if Quotes(flags, c) {
        var e := ClosingQuote(text, i, i + 1, flags);
        QuoteSeen(text, i, flags, from, quotes);
        ForwardIsMasked(text, e + 1, stack, flags, delim, from, quotes);
        PlainPasses(masked, i, e + 1, stack, flags.nestedPairs, delim);
      } else {
        ForwardIsMasked(text, i + 1, stack, flags, delim, from, quotes);
      }
    }
  }

  lemma SeesWithin(text: string, i: nat, flags: Flags, quotes: seq<Quoted>)
    requires Sees(text, i, flags, quotes)
    ensures i <= |text|
  {
  }

  // ----- Backwards -----

  /** A quote that an escape behind it hides from the quote it might open: in quotes in which escapes count, a
      scan to the left meets the escape first and passes over what stands before it. */
  ghost predicate HiddenBefore(text: string, close: nat, x: nat, flags: Flags)
    requires x < |text| && close < |text|
  {
    text[close] in EscapingQuotes(flags) && OddAfter(text, x, EscapeChars(flags))
  }

  /** A quote that is not escaped, and the one of its kind before it that is not hidden from it. */
  ghost predicate Opens(text: string, q: Quoted, flags: Flags) {
    && q.open < q.close < |text| && text[q.close] in QuoteChars(flags) && !EscapedAt(text, q.close, flags)
    && text[q.open] == text[q.close] && !HiddenBefore(text, q.close, q.open, flags)
    && forall x | q.open < x < q.close && text[x] == text[q.close] :: HiddenBefore(text, q.close, x, flags)
  }

  ghost predicate NeverOpened(text: string, close: nat, flags: Flags)
    requires close < |text|
  {
    forall x | 0 <= x < close && text[x] == text[close] :: HiddenBefore(text, close, x, flags)
  }

  /** The quoted parts before a position, as a scan to the left takes them. */
  ghost predicate QuotedUpTo(text: string, upto: nat, flags: Flags, quotes: seq<Quoted>) {
    && Apart(quotes) && (forall q | q in quotes :: q.close < upto && Opens(text, q, flags))
    && forall x | 0 <= x < upto && x < |text| && text[x] in QuoteChars(flags) && !EscapedAt(text, x, flags)
                  && !Within(quotes, x) :: NeverOpened(text, x, flags)
  }

  /** The text without what a scan to the left must not see. */
  ghost function BackwardMask(text: string, flags: Flags, quotes: seq<Quoted>): (masked: string)
    ensures |masked| == |text|
  {
    seq(|text|, x requires 0 <= x < |text| => if EscapedAt(text, x, flags) || Between(quotes, x) then ' ' else text[x])
  }

  lemma {:induction false} OpeningQuoteMeans(text: string, close: nat, j: int, flags: Flags)
    requires -2 <= j < close < |text| && text[close] in QuoteChars(flags) && !EscapedAt(text, close, flags)
    requires forall x | j < x < close && 0 <= x && text[x] == text[close] :: HiddenBefore(text, close, x, flags)
    requires j >= 0 ==> !HiddenBefore(text, close, j, flags)
    ensures var o := OpeningQuote(text, close, j, flags);
            if o == close then NeverOpened(text, close, flags) else o <= j && Opens(text, Quoted(o, close), flags)
    decreases j + 2
  {
    if j >= 0 {
      FlagsMean(flags, text[j]);
      FlagsMean(flags, text[close]);
      if j > 0 {
        OddAfterStep(text, j - 1, EscapeChars(flags));
      }
      if j > 1 {
        OddAfterStep(text, j - 2, EscapeChars(flags));
      }
      hide OddAfter, EscapedAt;
      if Escapes(flags, text[j]) && EscapedQuote(flags, text[close]) {
        OpeningQuoteMeans(text, close, j - 2, flags);
      } else if text[j] != text[close] {
        OpeningQuoteMeans(text, close, j - 1, flags);
      }
    }
  }

  lemma QuoteNotEscaping(text: string, close: nat, flags: Flags)
    requires 0 < close < |text| && text[close] in QuoteChars(flags)
    ensures !HiddenBefore(text, close, close - 1, flags)
  {
    FlagsMean(flags, text[close]);
    OddAfterStep(text, close - 1, EscapeChars(flags));
  }

  /** Every text has its quoted parts before any position, to the left as well. */
  lemma {:induction false} QuotedPartsUpTo(text: string, i: nat, flags: Flags) returns (quotes: seq<Quoted>)
    requires i <= |text|
    ensures QuotedUpTo(text, i, flags, quotes)
    decreases i
  {
    quotes := [];
    if i > 0 {
      hide OddAfter, EscapedAt, NeverOpened, Opens;
      if text[i - 1] in QuoteChars(flags) && !EscapedAt(text, i - 1, flags) {
        OpeningFrom(text, i - 1, flags);
        var o := OpeningQuote(text, i - 1, i - 2, flags);
        var rest := QuotedPartsUpTo(text, o, flags);
        quotes := if o == i - 1 then rest else rest + [Quoted(o, i - 1)];
        PartsBehind(text, i, o, flags, rest);
      } else {
        quotes := QuotedPartsUpTo(text, i - 1, flags);
      }
    }
  }

  lemma OpeningFrom(text: string, close: nat, flags: Flags)
    requires close < |text| && text[close] in QuoteChars(flags) && !EscapedAt(text, close, flags)
    ensures var o := OpeningQuote(text, close, close - 1, flags);
            if o == close then NeverOpened(text, close, flags) else Opens(text, Quoted(o, close), flags)
  {
    if close > 0 {
      QuoteNotEscaping(text, close, flags);
    }
    hide HiddenBefore, EscapedAt;
    OpeningQuoteMeans(text, close, close - 1, flags);
  }

  lemma PartsBehind(text: string, i: nat, o: nat, flags: Flags, rest: seq<Quoted>)
    requires 0 < i <= |text| && o < i && QuotedUpTo(text, o, flags, rest)
    requires if o == i - 1 then NeverOpened(text, i - 1, flags) else Opens(text, Quoted(o, i - 1), flags)
    ensures QuotedUpTo(text, i, flags, if o == i - 1 then rest else rest + [Quoted(o, i - 1)])
  {
    hide NeverOpened, Opens, EscapedAt;
    var quotes := if o == i - 1 then rest else rest + [Quoted(o, i - 1)];
    forall x | 0 <= x < i && !Within(quotes, x)
      ensures x == i - 1 || (x < o && !Within(rest, x))
    {
      if o != i - 1 {
        assert Quoted(o, i - 1) in quotes;
      }
      assert forall q | q in rest :: q in quotes;
    }
    if o != i - 1 {
      forall a, b | 0 <= a < b < |quotes|
        ensures quotes[a].close < quotes[b].open
      {
        assert quotes[a] == rest[a] && rest[a] in rest;
      }
    }
  }

  /** Where a quote that the scan to the left sees is opened. */
  lemma QuoteSeenFromBehind(text: string, i: nat, flags: Flags, upto: nat, quotes: seq<Quoted>)
    requires 0 < i <= upto <= |text| && QuotedUpTo(text, upto, flags, quotes) && !Inside(quotes, i)
    requires text[i - 1] in QuoteChars(flags) && !EscapedAt(text, i - 1, flags)
    ensures var o := OpeningQuote(text, i - 1, i - 2, flags);
            && !Inside(quotes, o)
            && forall x | o <= x < i :: !IsDelimiter(BackwardMask(text, flags, quotes)[x])
  {
    hide EscapedAt, QuotedUpTo, Inside, BackwardMask, Opens, NeverOpened, OpeningQuote;
    FlagsMean(flags, text[i - 1]);
    OpeningFrom(text, i - 1, flags);
    var o := OpeningQuote(text, i - 1, i - 2, flags);
    if o != i - 1 {
      var q := ClosesHere(text, i, o, flags, upto, quotes);
      BeginsThere(text, q, o, flags);
      InOrderUpTo(text, upto, flags, quotes, q);
      NotInsideBefore(q, quotes);
      BlankBackwards(text, q, flags, quotes);
    } else {
      NotInsideUnopened(text, i, flags, upto, quotes);
      MaskedAt(text, i - 1, flags, quotes);
    }
  }

  lemma InOrderUpTo(text: string, upto: nat, flags: Flags, quotes: seq<Quoted>, q: Quoted)
    requires QuotedUpTo(text, upto, flags, quotes) && q in quotes
    ensures Apart(quotes) && q.open < q.close < |text| && text[q.open] == text[q.close]
    ensures text[q.close] in QuoteChars(flags)
  {
  }

  /** A quoted part shows no delimiter. */
  lemma BlankBackwards(text: string, q: Quoted, flags: Flags, quotes: seq<Quoted>)
    requires q in quotes && q.open < q.close < |text| && text[q.open] == text[q.close]
    requires text[q.close] in QuoteChars(flags)
    ensures forall x | q.open <= x <= q.close :: !IsDelimiter(BackwardMask(text, flags, quotes)[x])
  {
    hide EscapedAt;
    FlagsMean(flags, text[q.close]);
  }

  lemma ClosesHere(text: string, i: nat, o: nat, flags: Flags, upto: nat, quotes: seq<Quoted>) returns (q: Quoted)
    requires 0 < i <= upto <= |text| && QuotedUpTo(text, upto, flags, quotes) && !Inside(quotes, i)
    requires text[i - 1] in QuoteChars(flags) && Opens(text, Quoted(o, i - 1), flags)
    ensures q in quotes && q.close == i - 1 && Opens(text, q, flags)
  {
    hide EscapedAt, HiddenBefore;
    assert !NeverOpened(text, i - 1, flags);
    q :| q in quotes && q.open <= i - 1 <= q.close;
  }

  lemma BeginsThere(text: string, q: Quoted, o: nat, flags: Flags)
    requires Opens(text, q, flags) && Opens(text, Quoted(o, q.close), flags)
    ensures q.open == o
  {
    hide HiddenBefore, EscapedAt;
  }

  lemma NotInsideBefore(q: Quoted, quotes: seq<Quoted>)
    requires Apart(quotes) && q in quotes && q.open < q.close
    ensures !Inside(quotes, q.open)
  {
    var k :| 0 <= k < |quotes| && quotes[k] == q;
    forall r | r in quotes
      ensures !(r.open < q.open <= r.close)
    {
      var j :| 0 <= j < |quotes| && quotes[j] == r;
    }
  }

  lemma NotInsideUnopened(text: string, i: nat, flags: Flags, upto: nat, quotes: seq<Quoted>)
    requires 0 < i <= upto <= |text| && QuotedUpTo(text, upto, flags, quotes) && !Inside(quotes, i)
    requires NeverOpened(text, i - 1, flags)
    ensures !Inside(quotes, i - 1)
  {
    hide HiddenBefore, EscapedAt;
  }

  /** A character that is no quote to see is in quotes with its neighbour, or neither is. */
  lemma NotInsideNext(text: string, i: nat, flags: Flags, upto: nat, quotes: seq<Quoted>)
    requires 0 < i <= upto <= |text| && QuotedUpTo(text, upto, flags, quotes) && !Inside(quotes, i)
    requires text[i - 1] !in QuoteChars(flags) || EscapedAt(text, i - 1, flags)
    ensures !Inside(quotes, i - 1)
  {
    hide HiddenBefore, EscapedAt;
  }

  lemma MaskedAt(text: string, x: nat, flags: Flags, quotes: seq<Quoted>)
    requires x < |text| && !Inside(quotes, x + 1)
    ensures BackwardMask(text, flags, quotes)[x] == if EscapedAt(text, x, flags) then ' ' else text[x]
  {
    hide EscapedAt;
  }

  lemma {:induction false} PlainPassesBack(text: string, j: nat, i: nat, stack: seq<char>, nested: bool, delim: char)
    requires j <= i <= |text| && Delimiters(stack) && IsDelimiter(delim)
    requires forall x | j <= x < i :: !IsDelimiter(text[x])
    ensures Backward(text, i, stack, nested, delim) == Backward(text, j, stack, nested, delim)
    decreases i
  {
    if j < i {
      assert stack[|stack| - 1] in stack;
      PlainPassesBack(text, j, i - 1, stack, nested, delim);
    }
  }

  /** With any flags, the scan to the left is the plain scan of the text in which escaped characters and what
      stands in quotes are blanked out. */
  lemma {:induction false} BackwardIsMasked(text: string, i: nat, stack: seq<char>, flags: Flags, delim: char,
                                            upto: nat, quotes: seq<Quoted>)
    requires i <= upto <= |text| && QuotedUpTo(text, upto, flags, quotes) && !Inside(quotes, i)
    requires Delimiters(stack) && IsDelimiter(delim)
    ensures BackwardWith(text, i, stack, flags, delim) ==
            Backward(BackwardMask(text, flags, quotes), i, stack, flags.nestedPairs, delim)
    decreases i, |stack|
  {
    hide EscapedAt, BackwardMask, QuotedUpTo, Inside;
    if i > 0 {
      var c, top, masked := text[i - 1], |stack| - 1, BackwardMask(text, flags, quotes);
      assert stack[top] in stack;
      IsEscapedMeans(text, i - 1, flags);
      MaskedAt(text, i - 1, flags, quotes);
      FlagsMean(flags, c);
      if c !in QuoteChars(flags) || EscapedAt(text, i - 1, flags) {
        NotInsideNext(text, i, flags, upto, quotes);
      }
      if IsEscaped(text, i - 1, flags) {
        BackwardIsMasked(text, i - 1, stack, flags, delim, upto, quotes);
        PlainPassesBack(masked, i - 1, i, stack, flags.nestedPairs, delim);
      } else if c == stack[top] {
        if top > 0 {
          BackwardIsMasked(text, i - 1, stack[..top], flags, delim, upto, quotes);
        }
      } else if flags.nestedPairs && IsStart(c) {
        if top > 0 {
          BackwardIsMasked(text, i, stack[..top], flags, delim, upto, quotes);
        }
      } else if (flags.nestedPairs && IsEnd(c)) || (!flags.nestedPairs && c == delim) {
        BackwardIsMasked(text, i - 1, stack + [Matching(c)], flags, delim, upto, quotes);
      } else if Quotes(flags, c) {
        var o := OpeningQuote(text, i - 1, i - 2, flags);
        QuoteSeenFromBehind(text, i, flags, upto, quotes);
        BackwardIsMasked(text, o, stack, flags, delim, upto, quotes);
        PlainPassesBack(masked, o, i, stack, flags.nestedPairs, delim);
      } else {
        BackwardIsMasked(text, i - 1, stack, flags, delim, upto, quotes);
      }
    }
  }

  // ----- The matcher -----

  function MatchOf(s: Scan, pos: nat, backwards: bool): Option<Match> {
    if !s.Found? then None else if backwards then Some(Match(s.at, pos, true)) else Some(Match(pos, s.at, false))
  }

  /** What the matcher answers, with any flags: it looks at the delimiter at the cursor, or else at the one before
      it; an escaped one has no match, and any other has the match that the plain scan finds for it in the text
      without escaped and quoted characters. */
  lemma MatcherIsMasked(text: string, end: nat, flags: Flags)
    requires text != "" && end <= |text|
    ensures var pos := if end == |text| || (end > 0 && text[end] !in "{[(}])") then end - 1 else end;
            var c, from := text[pos], pos + 1;
            if EscapedAt(text, pos, flags) || c !in "{[(}])" then MatchAt(text, end, flags) == None
            else if c in "{[(" then
              && (exists quotes :: QuotedFrom(text, from, flags, quotes))
              && (forall quotes | QuotedFrom(text, from, flags, quotes) ::
                    MatchAt(text, end, flags) ==
                    MatchOf(Forward(ForwardMask(text, flags, quotes), from, [Matching(c)], flags.nestedPairs, c),
                            pos, false))
            else
              && (exists quotes :: QuotedUpTo(text, pos, flags, quotes))
              && (forall quotes | QuotedUpTo(text, pos, flags, quotes) ::
                    MatchAt(text, end, flags) ==
                    MatchOf(Backward(BackwardMask(text, flags, quotes), pos, [Matching(c)], flags.nestedPairs, c),
                            pos, true))
  {
    hide EscapedAt, QuotedFrom, QuotedUpTo, ForwardMask, BackwardMask, ForwardWith, BackwardWith, Forward, Backward,
         IsEscaped, OddBefore;
    if end < |text| {
      ThreePairs(text[end]);
    }
    var pos := Examined(text, end);
    var c := text[pos];
    ThreePairs(c);
    IsEscapedMeans(text, pos, flags);
    if IsStart(c) {
      FlagsMean(flags, c);
      OddStep(text, pos, EscapeChars(flags));
      var some := QuotedPartsFrom(text, pos + 1, flags);
      forall quotes | QuotedFrom(text, pos + 1, flags, quotes)
        ensures ForwardWith(text, pos + 1, [Matching(c)], flags, c) ==
                Forward(ForwardMask(text, flags, quotes), pos + 1, [Matching(c)], flags.nestedPairs, c)
      {
        SeesFrom(text, pos + 1, flags, quotes);
        ForwardIsMasked(text, pos + 1, [Matching(c)], flags, c, pos + 1, quotes);
      }
    } else if IsEnd(c) {
      var some := QuotedPartsUpTo(text, pos, flags);
      forall quotes | QuotedUpTo(text, pos, flags, quotes)
        ensures BackwardWith(text, pos, [Matching(c)], flags, c) ==
                Backward(BackwardMask(text, flags, quotes), pos, [Matching(c)], flags.nestedPairs, c)
      {
        OutsideFrom(text, pos, flags, quotes);
        BackwardIsMasked(text, pos, [Matching(c)], flags, c, pos, quotes);
      }
    }
  }

  lemma SeesFrom(text: string, from: nat, flags: Flags, quotes: seq<Quoted>)
    requires from <= |text| && !OddBefore(text, from, EscapeChars(flags)) && QuotedFrom(text, from, flags, quotes)
    ensures Sees(text, from, flags, quotes)
  {
    hide OddBefore, Closes;
  }

  lemma OutsideFrom(text: string, upto: nat, flags: Flags, quotes: seq<Quoted>)
    requires QuotedUpTo(text, upto, flags, quotes)
    ensures !Inside(quotes, upto)
  {
    hide EscapedAt, Opens;
  }

  /** A match is never on an escaped or quoted delimiter: seen from its examined end, the other end is neither. */
  lemma NeverHiddenForwards(text: string, end: nat, flags: Flags, quotes: seq<Quoted>)
    requires end <= |text| && MatchAt(text, end, flags).Some? && !MatchAt(text, end, flags).value.backwards
    requires QuotedFrom(text, MatchAt(text, end, flags).value.matchStart + 1, flags, quotes)
    ensures var q := MatchAt(text, end, flags).value.matchEnd;
            q < |text| && !OddBefore(text, q, EscapeChars(flags)) && !Between(quotes, q)
  {
    var m := MatchAt(text, end, flags).value;
    var masked := ForwardMask(text, flags, quotes);
    MatcherIsMasked(text, end, flags);
    ThreePairs(text[m.matchStart]);
    var c := text[m.matchStart];
    FoundShown(masked, m.matchStart + 1, [Matching(c)], flags.nestedPairs, c, m.matchEnd);
    hide OddBefore;
  }

  lemma {:induction false} FoundShown(text: string, i: nat, stack: seq<char>, nested: bool, delim: char, q: nat)
    requires i <= |text| && Delimiters(stack) && IsDelimiter(delim)
    requires Forward(text, i, stack, nested, delim) == Found(q)
    ensures i <= q < |text| && IsDelimiter(text[q])
    decreases |text| - i
  {
    var c, top := text[i], |stack| - 1;
    assert stack[top] in stack;
    if c == stack[top] {
      if top > 0 {
        FoundShown(text, i + 1, stack[..top], nested, delim, q);
      }
    } else if (nested && IsStart(c)) || (!nested && c == delim) {
      FoundShown(text, i + 1, stack + [Matching(c)], nested, delim, q);
    } else {
      FoundShown(text, i + 1, stack, nested, delim, q);
    }
  }
}
