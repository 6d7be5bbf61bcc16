/** Horizontal smushing of FIGlet characters: how far a character may move into the line, and what the
    overlapped columns become. */
module Figlet {
  import opened Wrappers

  const NUL := '\0'

  /** The layout bits of a font. */
  datatype Layout = Layout(equal: bool, lowline: bool, hierarchy: bool, pair: bool, bigX: bool, hardblankRule: bool,
                           kern: bool, smush: bool)

  predicate Universal(l: Layout) {
    !l.equal && !l.lowline && !l.hierarchy && !l.pair && !l.bigX && !l.hardblankRule
  }

  predicate In(c: char, set_: string) {
    c in set_
  }

  /** Whether one class of the hierarchy gives way to a later one. */
  predicate Outranked(low: char, high: char) {
    || (low == '|' && In(high, "/\\[]{}()<>")) || (In(low, "/\\") && In(high, "[]{}()<>"))
          || (In(low, "[]") && In(high, "{}()<>"))
    || (In(low, "{}") && In(high, "()<>")) || (In(low, "()") && In(high, "<>"))
  }

  /** What one column becomes when two characters meet in it; NUL when they may not. */
  function Smushem(l: Layout, hardblank: char, right2left: bool, previousWidth: nat, currentWidth: nat, lch: char,
                   rch: char): char {
    if lch == ' ' then rch
    else if rch == ' ' then lch
    else if previousWidth < 2 || currentWidth < 2 then NUL
    else if !l.smush then NUL
    else if Universal(l) then
      if lch == hardblank then rch else if rch == hardblank then lch else if right2left then lch else rch
    else if l.hardblankRule && lch == hardblank && rch == hardblank then lch
    else if lch == hardblank || rch == hardblank then NUL
    else if l.equal && lch == rch then lch
    else if l.lowline && lch == '_' && In(rch, "|/\\[]{}()<>") then rch
    else if l.lowline && rch == '_' && In(lch, "|/\\[]{}()<>") then lch
    else if l.hierarchy && Outranked(lch, rch) then rch
    else if l.hierarchy && Outranked(rch, lch) then lch
    else if l.pair && [lch, rch] in ["[]", "][", "{}", "}{", "()", ")("] then '|'
    else if l.bigX && lch == '/' && rch == '\\' then '|'
    else if l.bigX && rch == '/' && lch == '\\' then 'Y'
    else if l.bigX && lch == '>' && rch == '<' then 'X'
    else NUL
  }

  predicate Visible(c: char) {
    c != ' ' && c != NUL
  }

  /** The classes of the hierarchy, weakest first; 0 for characters outside it. */
  function Rank(c: char): nat {
    if c == '|' then 1 else if In(c, "/\\") then 2 else if In(c, "[]") then 3 else if In(c, "{}") then 4
    else if In(c, "()") then 5 else if In(c, "<>") then 6 else 0
  }

  lemma RankOf(c: char)
    ensures Rank(c) <= 6 && (c == '|' <==> Rank(c) == 1)
    ensures In(c, "/\\") <==> Rank(c) == 2
    ensures In(c, "[]") <==> Rank(c) == 3
    ensures In(c, "{}") <==> Rank(c) == 4
    ensures In(c, "()") <==> Rank(c) == 5
    ensures In(c, "<>") <==> Rank(c) == 6
    ensures In(c, "/\\[]{}()<>") <==> Rank(c) > 1
    ensures In(c, "[]{}()<>") <==> Rank(c) > 2
    ensures In(c, "{}()<>") <==> Rank(c) > 3
    ensures In(c, "()<>") <==> Rank(c) > 4
  {
  }

  /** The hierarchy of the FIGfont standard: the character of the later class wins. */
  lemma HierarchyIsRank(low: char, high: char)
    ensures Outranked(low, high) <==> 0 < Rank(low) < Rank(high)
  {
    hide In, Rank;
    RankOf(low);
    RankOf(high);
  }

  /** Two visible characters that may share a column leave something visible there, and a blank gives way. */
  lemma SmushKeepsInk(f: Fit, lch: char, rch: char)
    ensures Visible(lch) && Visible(rch) && Smush(f, lch, rch) != NUL ==> Visible(Smush(f, lch, rch))
    ensures lch == ' ' ==> Smush(f, lch, rch) == rch
    ensures rch == ' ' ==> Smush(f, lch, rch) == lch
  {
  }

  // ----- The smushing rules, one by one -----

  /** Two characters under controlled smushing, neither of them blank nor hardblank. */
  predicate Controlled(f: Fit, lch: char, rch: char) {
    && lch != ' ' && rch != ' ' && lch != f.hardblank && rch != f.hardblank
    && f.previousWidth >= 2 && f.currentWidth >= 2 && f.layout.smush && SomeRule(f.layout)
  }

  /** A layout with a rule is controlled, one without is universal. */
  predicate SomeRule(l: Layout) {
    l.equal || l.lowline || l.hierarchy || l.pair || l.bigX || l.hardblankRule
  }

  /** What an underscore gives way to. */
  predicate Listed(c: char) {
    c == '|' || c == '/' || c == '\\' || c == '[' || c == ']' || c == '{' || c == '}' || c == '(' || c == ')'
    || c == '<' || c == '>'
  }

  predicate Opposite(open: char, close: char) {
    (open == '[' && close == ']') || (open == '{' && close == '}') || (open == '(' && close == ')')
  }

  /** Rule 1: equal characters give that character. */
  lemma EqualRule(f: Fit, c: char)
    requires Controlled(f, c, c) && f.layout.equal
    ensures Smush(f, c, c) == c
  {
  }

  /** Rule 2: an underscore gives way to any of the listed characters, on either side. */
  lemma UnderscoreRule(f: Fit, c: char)
    requires Controlled(f, '_', c) && f.layout.lowline && Listed(c)
    ensures Smush(f, '_', c) == c == Smush(f, c, '_')
  {
  }

  /** The classes of the hierarchy by their members. */
  lemma RankMembers(c: char)
    ensures Rank('|') == 1 && Rank('/') == Rank('\\') == 2 && Rank('[') == Rank(']') == 3
    ensures Rank('{') == Rank('}') == 4 && Rank('(') == Rank(')') == 5 && Rank('<') == Rank('>') == 6
    ensures Rank(c) == 0 <==> !Listed(c)
  {
  }

  /** Rule 3: the character of the later class wins, on either side. */
  lemma HierarchyRule(f: Fit, low: char, high: char)
    requires Controlled(f, low, high) && f.layout.hierarchy && 0 < Rank(low) < Rank(high)
    ensures Smush(f, low, high) == high == Smush(f, high, low)
  {
    HierarchyIsRank(low, high);
    HierarchyIsRank(high, low);
    RankMembers(low);
    RankMembers(high);
  }

  /** Rule 4: opposite brackets give a bar, in either order. */
  lemma PairRule(f: Fit, open: char, close: char)
    requires Controlled(f, open, close) && f.layout.pair && Opposite(open, close)
    ensures Smush(f, open, close) == '|' == Smush(f, close, open)
  {
    HierarchyIsRank(open, close);
    HierarchyIsRank(close, open);
  }

  /** Rule 5: the three big X results. */
  lemma BigXRule(f: Fit)
    requires f.layout.bigX
    ensures Controlled(f, '/', '\\') ==> Smush(f, '/', '\\') == '|' && Smush(f, '\\', '/') == 'Y'
    ensures Controlled(f, '>', '<') ==> Smush(f, '>', '<') == 'X'
  {
    HierarchyIsRank('/', '\\');
    HierarchyIsRank('\\', '/');
    HierarchyIsRank('>', '<');
    HierarchyIsRank('<', '>');
  }

  /** Rule 6: two hardblanks give one, where the rule is enabled; a hardblank meets nothing else. */
  lemma HardblankRule(f: Fit, c: char)
    requires f.hardblank != ' ' && f.layout.smush && SomeRule(f.layout)
    requires f.previousWidth >= 2 && f.currentWidth >= 2
    ensures Smush(f, f.hardblank, f.hardblank) == if f.layout.hardblankRule then f.hardblank else NUL
    ensures c != ' ' && c != f.hardblank ==> Smush(f, f.hardblank, c) == NUL == Smush(f, c, f.hardblank)
  {
  }

  /** Universal smushing shows the later character, or the other one if either is the hardblank. The later one
      is on the left when the line runs from right to left. */
  lemma UniversalRule(f: Fit, lch: char, rch: char)
    requires lch != ' ' && rch != ' ' && f.layout.smush && !SomeRule(f.layout)
    requires f.previousWidth >= 2 && f.currentWidth >= 2
    ensures lch == f.hardblank ==> Smush(f, lch, rch) == rch
    ensures lch != f.hardblank && rch == f.hardblank ==> Smush(f, lch, rch) == lch
    ensures lch != f.hardblank && rch != f.hardblank ==> Smush(f, lch, rch) == if f.right2left then lch else rch
  {
  }

  /** Controlled smushing shows something exactly when one of the enabled rules applies. */
  lemma SomeRuleApplies(f: Fit, lch: char, rch: char)
    requires Controlled(f, lch, rch) && lch != NUL && rch != NUL
    ensures Smush(f, lch, rch) != NUL <==>
            || (f.layout.equal && lch == rch)
            || (f.layout.lowline && ((lch == '_' && Listed(rch)) || (rch == '_' && Listed(lch))))
            || (f.layout.hierarchy && Rank(lch) > 0 && Rank(rch) > 0 && Rank(lch) != Rank(rch))
            || (f.layout.pair && (Opposite(lch, rch) || Opposite(rch, lch)))
            || (f.layout.bigX
                && ((lch == '/' && rch == '\\') || (lch == '\\' && rch == '/') || (lch == '>' && rch == '<')))
  {
    HierarchyIsRank(lch, rch);
    HierarchyIsRank(rch, lch);
    RankMembers(lch);
    RankMembers(rch);
    hide Rank, Outranked;
  }

  /** Without the smushing bit, or beside a character of one column, no two visible characters may meet. */
  lemma NoSmushing(f: Fit, lch: char, rch: char)
    requires lch != ' ' && rch != ' ' && (!f.layout.smush || f.previousWidth < 2 || f.currentWidth < 2)
    ensures Smush(f, lch, rch) == NUL
  {
  }

  /** The equal, underscore, hierarchy, opposite-pair and hardblank rules do not care which side is which. */
  lemma RulesAreSymmetric(f: Fit, lch: char, rch: char)
    requires !Universal(f.layout) && !f.layout.bigX
    ensures Smush(f, lch, rch) == Smush(f, rch, lch)
  {
    HierarchyIsRank(lch, rch);
    HierarchyIsRank(rch, lch);
  }

  /** Rows of one width. */
  predicate Even(rows: seq<string>) {
    forall r | 0 <= r < |rows| :: |rows[r]| == |rows[0]|
  }

  predicate Inked(rows: seq<string>) {
    forall r | 0 <= r < |rows| :: NUL !in rows[r]
  }

  /** The column where the left side ends, as the scan sees it: it never looks at column 0. */
  function EndOf(row: string): (bd: int)
    ensures if row == "" then bd == -1 else 0 <= bd < |row|
    ensures forall j | bd < j < |row| :: !Visible(row[j])
    ensures bd > 0 ==> Visible(row[bd])
  {
    if |row| <= 1 then |row| - 1 else if Visible(row[|row| - 1]) then |row| - 1 else EndOf(row[..|row| - 1])
  }

  /** The column where the right side begins. */
  function BeginOf(row: string): (bd: nat)
    ensures bd <= |row| && (forall j | 0 <= j < bd :: row[j] == ' ') && (bd < |row| ==> row[bd] != ' ')
  {
    if row == "" || row[0] != ' ' then 0 else 1 + BeginOf(row[1..])
  }

  method ScanEnd(row: string) returns (bd: int, ch: char)
    ensures bd == EndOf(row) && if bd > 0 then ch == row[bd] else !Visible(ch)
  {
    bd, ch := |row| - 1, NUL;
    while bd > 0
      invariant -1 <= bd < |row| && !Visible(ch) && EndOf(row) == EndOf(row[..bd + 1])
    {
      ch := row[bd];
      if Visible(ch) {
        return;
      }
      assert row[..bd + 1][..bd] == row[..bd];
      bd := bd - 1;
    }
  }

  method ScanBegin(row: string) returns (bd: nat, ch: char)
    ensures bd == BeginOf(row) && if bd < |row| then ch == row[bd] else if row == "" then ch == NUL else ch == ' '
  {
    bd, ch := 0, NUL;
    while bd < |row|
      invariant bd <= |row| && BeginOf(row) == bd + BeginOf(row[bd..]) && (if bd == 0 then ch == NUL else ch == ' ')
    {
      ch := row[bd];
      if ch != ' ' {
        return;
      }
      bd := bd + 1;
    }
  }

  /** The last visible character of a row stands in column 0. */
  ghost predicate EndsInColumnZero(row: string) {
    row != "" && Visible(row[0]) && forall j | 0 < j < |row| :: !Visible(row[j])
  }

  /** What smushing depends on while one character joins the line. */
  datatype Fit = Fit(layout: Layout, hardblank: char, right2left: bool, previousWidth: nat, currentWidth: nat)

  function Smush(f: Fit, lch: char, rch: char): char {
    Smushem(f.layout, f.hardblank, f.right2left, f.previousWidth, f.currentWidth, lch, rch)
  }

  /** How far one row lets the right side move in: the gap between the sides, and one more where the
      characters that meet smush, or where there is nothing to meet. The left side counts as wide as the first
      row of its own, whatever the length of this one. */
  function RowAmount(f: Fit, left: string, width: nat, right: string): int {
    var endBd, beginBd := EndOf(left), BeginOf(right);
    var smushes := if endBd <= 0 then true
                   else if beginBd == |right| then right != ""
                   else right[beginBd] != NUL && Smush(f, left[endBd], right[beginBd]) != NUL;
    beginBd + width - 1 - endBd + if smushes then 1 else 0
  }

  /** A row's last visible column, if column 0 is not its only one. */
  ghost predicate EndsAt(left: string, e: nat) {
    && e < |left| && (forall j | e < j < |left| :: left[j] == ' ' || left[j] == NUL)
    && (e > 0 ==> left[e] != ' ' && left[e] != NUL)
  }

  /** A row's first column that is not blank, or its length. */
  ghost predicate BeginsAt(right: string, b: nat) {
    b <= |right| && (forall j | 0 <= j < b :: right[j] == ' ') && (b < |right| ==> right[b] != ' ')
  }

  /** An overlap is allowed exactly as long as the left end stays in front of the right beginning, or meets it
      and smushes with it. */
  lemma AllowedOverlap(f: Fit, left: string, width: nat, right: string, e: nat, b: nat, n: nat)
    requires EndsAt(left, e) && BeginsAt(right, b)
    ensures var met := e - (width - n);
            n <= RowAmount(f, left, width, right) <==>
            || met < b
            || (met == b && (e == 0 || (b == |right| && right != "")
                             || (b < |right| && right[b] != NUL && Smush(f, left[e], right[b]) != NUL)))
  {
    hide Smush;
    OneEnd(left, e);
    OneBeginning(right, b);
  }

  lemma OneEnd(left: string, e: nat)
    requires EndsAt(left, e)
    ensures EndOf(left) == e
  {
    var bd := EndOf(left);
    assert (e > 0 ==> Visible(left[e])) && (bd > 0 ==> Visible(left[bd]));
    assert forall j | e < j < |left| :: !Visible(left[j]);
  }

  lemma OneBeginning(right: string, b: nat)
    requires BeginsAt(right, b)
    ensures BeginOf(right) == b
  {
    var bd := BeginOf(right);
    assert (b < |right| ==> right[b] != ' ') && (bd < |right| ==> right[bd] != ' ');
  }

  /** The columns of an overlap are there on both sides; in a font of ragged rows they need not be. */
  predicate InRange(left: string, width: nat, right: string, amount: nat) {
    amount == 0 || (amount <= width <= |left| && amount <= |right|)
  }

  /** In range are the overlaps all of whose columns are there. */
  lemma InRangeMeans(left: string, width: nat, right: string, amount: nat)
    requires amount <= width
    ensures InRange(left, width, right, amount) <==>
            forall k: nat | k < amount :: ColumnThere(left, width, right, amount, k)
  {
    if amount > 0 && forall k: nat | k < amount :: ColumnThere(left, width, right, amount, k) {
      assert ColumnThere(left, width, right, amount, amount - 1);
    }
  }

  predicate ColumnThere(left: string, width: nat, right: string, amount: nat, k: nat) {
    width - amount + k < |left| && k < |right|
  }

  /** A row keeps its ink under an overlap it allows, except where the scan did not look: in a left column 0. */
  lemma OverlapKeepsInk(f: Fit, left: string, width: nat, right: string, amount: nat, k: nat)
    requires amount <= RowAmount(f, left, width, right) && k < amount && InRange(left, width, right, amount)
    requires NUL !in left && NUL !in right
    requires !EndsInColumnZero(left) || amount < width || k > 0
    ensures Smush(f, left[width - amount + k], right[k]) != NUL
  {
    var lch, rch := left[width - amount + k], right[k];
    assert lch in left && rch in right;
  }

  /** A row after the right side has moved in. */
  function Overlapped(f: Fit, left: string, width: nat, right: string, amount: nat): (row: string)
    requires InRange(left, width, right, amount)
    ensures |row| == |left| + |right| - amount
  {
    if amount == 0 then left + right else SmushedInto(f, left, width - amount, right, amount) + right[amount..]
  }

  /** Column by column: the left side up to the overlap, the smushed columns, what a ragged left row has beyond
      its width, and the right side behind the overlap. */
  lemma OverlappedColumns(f: Fit, left: string, width: nat, right: string, amount: nat, j: nat)
    requires InRange(left, width, right, amount) && j < |left| + |right| - amount
    ensures Overlapped(f, left, width, right, amount)[j] ==
            if j >= |left| then right[j - |left| + amount]
            else if amount > 0 && width - amount <= j < width then Smush(f, left[j], right[j - (width - amount)])
            else left[j]
  {
    hide Smush;
  }

  /** The left side once the first columns of the right side have been smushed into it from a column on. */
  function SmushedInto(f: Fit, left: string, from: nat, right: string, n: nat): (row: string)
    requires n == 0 || (from + n <= |left| && n <= |right|)
    ensures |row| == |left|
    ensures forall j | 0 <= j < |left| :: row[j] == if from <= j < from + n then Smush(f, left[j], right[j - from])
            else left[j]
  {
    if n == 0 then left
    else SmushedInto(f, left, from, right, n - 1)[from + n - 1 := Smush(f, left[from + n - 1], right[n - 1])]
  }

  /** The one way a row can lose ink: everything on its left is overlapped, its only visible character is in
      the column the scan never reads, and that character does not smush. */
  ghost predicate LosesInk(f: Fit, left: string, width: nat, right: string, amount: nat)
  {
    EndsInColumnZero(left) && 0 < amount == width && right != "" && Smush(f, left[0], right[0]) == NUL
  }

  /** An allowed overlap writes no NUL, exactly when it is not that one case. */
  lemma InkKeptExactly(f: Fit, left: string, width: nat, right: string, amount: nat)
    requires InRange(left, width, right, amount) && (amount > 0 ==> amount <= RowAmount(f, left, width, right))
    requires NUL !in left && NUL !in right
    ensures NUL !in Overlapped(f, left, width, right, amount) <==> !LosesInk(f, left, width, right, amount)
  {
    hide Smush, RowAmount, EndsInColumnZero;
    var row, from := Overlapped(f, left, width, right, amount), width - amount;
    if amount > 0 {
      assert forall j | 0 <= j < from || width <= j < |left| :: row[j] == left[j] && left[j] in left;
      assert forall j | |left| <= j < |row| ::
               row[j] == right[j - |left| + amount] && right[j - |left| + amount] in right;
      if LosesInk(f, left, width, right, amount) {
        assert row[0] == Smush(f, left[0], right[0]);
      } else {
        forall j: nat | j < |row|
          ensures row[j] != NUL
        {
          if from <= j < width {
            assert row[j] == Smush(f, left[j], right[j - from]);
            if j > 0 || !EndsInColumnZero(left) {
              OverlapKeepsInk(f, left, width, right, amount, j - from);
            }
          }
        }
      }
    }
  }

  /** The row amount in terms of what the two scans return. */
  lemma AmountScanned(f: Fit, left: string, width: nat, right: string, ch1: char, ch2: char)
    requires if EndOf(left) > 0 then ch1 == left[EndOf(left)] else !Visible(ch1)
    requires if BeginOf(right) < |right| then ch2 == right[BeginOf(right)]
             else if right == "" then ch2 == NUL else ch2 == ' '
    ensures RowAmount(f, left, width, right) == BeginOf(right) + width - 1 - EndOf(left)
              + if !Visible(ch1) || (ch2 != NUL && Smush(f, ch1, ch2) != NUL) then 1 else 0
  {
  }

  /** The two sides of a line: the character comes in on the right, or on the left. */
  datatype Sides = Sides(lefts: seq<string>, width: nat, rights: seq<string>)

  /** The most the first rows allow together. */
  function MaxSmush(f: Fit, s: Sides, rows: nat): (amount: int)
    requires rows <= |s.lefts| && rows <= |s.rights|
    ensures amount <= f.currentWidth
    ensures forall r | 0 <= r < rows :: amount <= RowAmount(f, s.lefts[r], s.width, s.rights[r])
    ensures amount == f.currentWidth
            || exists r | 0 <= r < rows :: amount == RowAmount(f, s.lefts[r], s.width, s.rights[r])
  {
    if rows == 0 then f.currentWidth
    else
      var above := MaxSmush(f, s, rows - 1);
      var here := RowAmount(f, s.lefts[rows - 1], s.width, s.rights[rows - 1]);
      if here < above then here else above
  }

  /** Every row allows an overlap. */
  ghost predicate AllAllow(f: Fit, s: Sides, rows: nat, n: nat)
    requires rows <= |s.lefts| && rows <= |s.rights|
  {
    forall r | 0 <= r < rows :: n <= RowAmount(f, s.lefts[r], s.width, s.rights[r])
  }

  /** The amount a character moves in: the most that every row allows, within the character and the line. */
  function AmountFor(f: Fit, s: Sides, rows: nat, linelen: nat): (amount: nat)
    requires rows <= |s.lefts| && rows <= |s.rights|
    ensures amount <= linelen && amount <= f.currentWidth
    ensures amount > 0 ==> forall r | 0 <= r < rows :: amount <= RowAmount(f, s.lefts[r], s.width, s.rights[r])
    ensures !f.layout.smush && !f.layout.kern ==> amount == 0
    ensures f.layout.smush || f.layout.kern ==>
              forall n: nat | n <= linelen && n <= f.currentWidth && AllAllow(f, s, rows, n) :: n <= amount
  {
    var most := if f.layout.smush || f.layout.kern then MaxSmush(f, s, rows) else 0;
    if most < 0 then 0 else if most > linelen then linelen else most
  }

  /** No row is too short for the overlap. */
  predicate AllInRange(s: Sides, rows: nat, amount: nat)
    requires rows <= |s.lefts| && rows <= |s.rights|
  {
    forall r | 0 <= r < rows :: InRange(s.lefts[r], s.width, s.rights[r], amount)
  }

  /** The line after a character has joined it. */
  function Joined(f: Fit, s: Sides, rows: nat, amount: nat): seq<string>
    requires rows <= |s.lefts| && rows <= |s.rights| && AllInRange(s, rows, amount)
  {
    seq(rows, r requires 0 <= r < rows => Overlapped(f, s.lefts[r], s.width, s.rights[r], amount))
  }

  lemma JoinedRow(f: Fit, s: Sides, rows: nat, amount: nat, r: nat)
    requires rows <= |s.lefts| && rows <= |s.rights| && AllInRange(s, rows, amount) && r < rows
    ensures |Joined(f, s, rows, amount)| == rows
    ensures Joined(f, s, rows, amount)[r] == Overlapped(f, s.lefts[r], s.width, s.rights[r], amount)
  {
  }

  /** Some row loses its ink when the character moves in. */
  ghost predicate Loses(f: Fit, s: Sides, rows: nat, amount: nat)
    requires rows <= |s.lefts| && rows <= |s.rights|
  {
    exists r | 0 <= r < rows :: LosesInk(f, s.lefts[r], s.width, s.rights[r], amount)
  }

  /** Over the amount that every row allows, a line free of NUL stays so exactly when no row loses its ink. */
  lemma JoinedKeepsInk(f: Fit, s: Sides, rows: nat, linelen: nat)
    requires rows <= |s.lefts| && rows <= |s.rights| && Inked(s.lefts) && Inked(s.rights)
    requires AllInRange(s, rows, AmountFor(f, s, rows, linelen))
    ensures var amount := AmountFor(f, s, rows, linelen);
            Inked(Joined(f, s, rows, amount)) <==> !Loses(f, s, rows, amount)
  {
    hide Overlapped, LosesInk, RowAmount, AmountFor;
    var amount := AmountFor(f, s, rows, linelen);
    forall r | 0 <= r < rows
      ensures NUL !in Joined(f, s, rows, amount)[r] <==> !LosesInk(f, s.lefts[r], s.width, s.rights[r], amount)
    {
      InkKeptExactly(f, s.lefts[r], s.width, s.rights[r], amount);
    }
  }

  /** Even sides make an even line, as long as the two sides less the overlap. */
  lemma JoinedIsEven(f: Fit, s: Sides, rows: nat, amount: nat)
    requires rows <= |s.lefts| && rows <= |s.rights| && rows >= 1
    requires Even(s.lefts) && Even(s.rights) && s.width == |s.lefts[0]|
    requires amount <= s.width && amount <= |s.rights[0]|
    ensures AllInRange(s, rows, amount) && Even(Joined(f, s, rows, amount))
  {
  }

  /** The smallest loss: after a character one column wide, the next character overwrites it with NUL. */
  lemma OneColumnLosesInk(f: Fit)
    requires f.previousWidth == 1
    ensures RowAmount(f, "|", 1, "|x") == 1 && LosesInk(f, "|", 1, "|x", 1)
    ensures Overlapped(f, "|", 1, "|x", 1) == [NUL, 'x']
  {
  }

  /** Universal smushing of characters at least two columns wide always finds something to show. */
  lemma UniversalAlwaysSmushes(f: Fit, lch: char, rch: char)
    requires f.layout.smush && Universal(f.layout) && f.previousWidth >= 2 && f.currentWidth >= 2
    requires lch != NUL && rch != NUL
    ensures Smush(f, lch, rch) != NUL
  {
  }

  /** The rows of a line, and the width of the character that joined it last. */
  datatype Line = Line(rows: seq<string>, lastWidth: nat)

  /** A character joins the line, the line is full, or a row of a ragged font is too short for the overlap,
      where the container's own index check ends the program. */
  datatype Outcome = Added | Full | RowTooShort

  class FigletState {
    const layout: Layout
    const hardblank: char
    const charheight: nat
    const right2left: int
    const outlinelenlimit: nat
    const glyphs: map<int, seq<string>>
    var outputline: seq<string>
    var outlinelen: nat
    var currchar: seq<string>
    var currcharwidth: nat
    var previouscharwidth: nat

    /** The line has its rows, and the first of them is as long as the line, within the limit. */
    ghost predicate Valid()
      reads this
    {
      && |outputline| == charheight >= 1 && outlinelen == |outputline[0]| <= outlinelenlimit
    }

    function Current(): Fit
      reads this`previouscharwidth, this`currcharwidth
    {
      Fit(layout, hardblank, right2left == 1, previouscharwidth, currcharwidth)
    }

    /** The sides of a line that a glyph joins. */
    function SidesOf(line: seq<string>, linelen: nat, glyph: seq<string>, width: nat): Sides {
      if right2left != 0 then Sides(glyph, width, line) else Sides(line, linelen, glyph)
    }

    function CurrentSides(): Sides
      reads this`outputline, this`outlinelen, this`currchar, this`currcharwidth
    {
      SidesOf(outputline, outlinelen, currchar, currcharwidth)
    }

    method OverlapRow(left: string, width: nat, right: string, amount: nat) returns (row: string)
      requires InRange(left, width, right, amount)
      ensures row == Overlapped(Current(), left, width, right, amount)
    {
      hide Smush;
      row := left;
      for k := 0 to amount
        invariant row == SmushedInto(Current(), left, width - amount, right, k)
      {
        row := row[width - amount + k := Smush(Current(), row[width - amount + k], right[k])];
      }
      row := row + right[amount..];
    }

    /** The overlap of all rows, unless one of them is too short for it. */
    method OverlapRows(amount: nat) returns (rows: Option<seq<string>>)
      requires |outputline| == charheight <= |currchar|
      ensures var s := CurrentSides();
              && (rows.Some? <==> AllInRange(s, charheight, amount))
              && (rows.Some? ==> rows.value == Joined(Current(), s, charheight, amount))
    {
      var s, joined := CurrentSides(), [];
      for row := 0 to charheight
        invariant AllInRange(s, row, amount) && joined == Joined(Current(), s, row, amount)
      {
        if !InRange(s.lefts[row], s.width, s.rights[row], amount) {
          return None;
        }
        var one := OverlapRow(s.lefts[row], s.width, s.rights[row], amount);
        joined := joined + [one];
      }
      rows := Some(joined);
    }

    /** The two scans of one row, and the smush test where they stop. */
    method RowScan(left: string, width: nat, right: string) returns (amt: int)
      ensures amt == RowAmount(Current(), left, width, right)
    {
      hide RowAmount, Smush;
      var endBd, ch1 := ScanEnd(left);
      var beginBd, ch2 := ScanBegin(right);
      amt := beginBd + width - 1 - endBd;
      if !Visible(ch1) || (ch2 != NUL && Smush(Current(), ch1, ch2) != NUL) {
        amt := amt + 1;
      }
      AmountScanned(Current(), left, width, right, ch1, ch2);
    }

    /** How far the current character may move into the line: no further than any row allows. */
    method Smushamt() returns (amount: int)
      requires |outputline| == charheight <= |currchar|
      ensures amount == if layout.smush || layout.kern then
              MaxSmush(Current(), CurrentSides(), charheight)
                        else 0
    {
      if !layout.smush && !layout.kern {
        return 0;
      }
      hide RowAmount, Smush;
      amount := currcharwidth;
      var s := CurrentSides();
      for row := 0 to charheight
        invariant amount == MaxSmush(Current(), s, row)
      {
        var amt := RowScan(s.lefts[row], s.width, s.rights[row]);
        if amt < amount {
          amount := amt;
        }
      }
    }

    /** The amount is kept within the character and within the line. */
    method ClampedSmushamt() returns (smushamount: nat)
      requires |outputline| == charheight <= |currchar|
      ensures smushamount == AmountFor(Current(), CurrentSides(), charheight, outlinelen)
    {
      hide MaxSmush;
      var amount := Smushamt();
      if amount < 0 {
        amount := 0;
      }
      if amount > currcharwidth {
        amount := currcharwidth;
      }
      if amount > outlinelen {
        amount := outlinelen;
      }
      smushamount := amount;
    }

    constructor (layout: Layout, hardblank: char, charheight: nat, right2left: int, glyphs: map<int, seq<string>>)
      requires charheight >= 1
      ensures Valid() && Inked(outputline) && outlinelen == 0 && this.charheight == charheight && this.glyphs == glyphs
      ensures this.outlinelenlimit == 499 && this.layout == layout && this.hardblank == hardblank
      ensures this.right2left == right2left && Even(outputline)
    {
      this.layout, this.hardblank, this.charheight, this.right2left := layout, hardblank, charheight, right2left;
      outlinelenlimit, this.glyphs := 499, glyphs;
      outputline, outlinelen := seq(charheight, i => ""), 0;
      currchar, currcharwidth, previouscharwidth := [], 0, 0;
    }

    /** What the loader guarantees: a row for every line of the output. */
    ghost predicate Font()
    {
      charheight >= 1 && forall c | c in glyphs :: |glyphs[c]| >= charheight
    }

    /** What it does not: glyphs of one width, and free of NUL. */
    ghost predicate EvenFont()
    {
      forall c | c in glyphs :: Even(glyphs[c])
    }

    ghost predicate InkedFont()
    {
      forall c | c in glyphs :: Inked(glyphs[c])
    }

    /** The glyph of a character, else the one of code 0, else rows of no width. */
    function LookupGlyph(codepoint: int): (rows: seq<string>)
      ensures Font() ==> |rows| >= charheight
      ensures (EvenFont() ==> Even(rows)) && (InkedFont() ==> Inked(rows))
    {
      if codepoint in glyphs then glyphs[codepoint]
      else if 0 in glyphs then glyphs[0]
      else seq(if charheight < 1 then 1 else charheight, i => "")
    }

    // What a character makes of a line.

    function FitOf(line: Line, code: int): Fit
      requires Font()
    {
      Fit(layout, hardblank, right2left == 1, line.lastWidth, |LookupGlyph(code)[0]|)
    }

    function SidesFor(line: Line, code: int): (s: Sides)
      requires Font() && |line.rows| == charheight
      ensures charheight <= |s.lefts| && charheight <= |s.rights|
    {
      SidesOf(line.rows, |line.rows[0]|, LookupGlyph(code), |LookupGlyph(code)[0]|)
    }

    function AmountOf(line: Line, code: int): nat
      requires Font() && |line.rows| == charheight
    {
      AmountFor(FitOf(line, code), SidesFor(line, code), charheight, |line.rows[0]|)
    }

    function OutcomeOf(line: Line, code: int): Outcome
      requires Font() && |line.rows| == charheight
    {
      if |line.rows[0]| + |LookupGlyph(code)[0]| - AmountOf(line, code) > outlinelenlimit then Full
      else if AllInRange(SidesFor(line, code), charheight, AmountOf(line, code)) then Added else RowTooShort
    }

    function LineAfter(line: Line, code: int): (next: Line)
      requires Font() && |line.rows| == charheight
      ensures |next.rows| == charheight
    {
      if OutcomeOf(line, code) != Added then line
      else
        var rows := Joined(FitOf(line, code), SidesFor(line, code), charheight, AmountOf(line, code));
        Line(rows, |LookupGlyph(code)[0]|)
    }

    /** Some row of the line loses its ink in the column the scan never reads. */
    ghost predicate LosesInkAt(line: Line, code: int)
      requires Font() && |line.rows| == charheight
    {
      Loses(FitOf(line, code), SidesFor(line, code), charheight, AmountOf(line, code))
    }

    /** A character is refused for its length exactly when the joined line would exceed the limit. */
    lemma RefusedWhenTooLong(line: Line, code: int)
      requires Font() && |line.rows| == charheight
      requires AllInRange(SidesFor(line, code), charheight, AmountOf(line, code))
      ensures var joined := Joined(FitOf(line, code), SidesFor(line, code), charheight, AmountOf(line, code));
              OutcomeOf(line, code) == Full <==> |joined[0]| > outlinelenlimit
    {
      hide Joined, AllInRange, AmountFor;
      JoinedLength(FitOf(line, code), SidesFor(line, code), charheight, AmountOf(line, code));
    }

    /** An even line in an even font stays even, and never meets a row that is too short. */
    lemma StaysEven(line: Line, code: int)
      requires Font() && |line.rows| == charheight && Even(line.rows) && Even(LookupGlyph(code))
      ensures OutcomeOf(line, code) != RowTooShort && Even(LineAfter(line, code).rows)
    {
      hide Joined, AllInRange, AmountFor, LookupGlyph;
      JoinedIsEven(FitOf(line, code), SidesFor(line, code), charheight, AmountOf(line, code));
    }

    /** Over the amount that every row allows, a line free of NUL stays so exactly when no row loses its ink. */
    lemma KeepsInk(line: Line, code: int)
      requires Font() && |line.rows| == charheight && Inked(line.rows) && Inked(LookupGlyph(code))
      requires OutcomeOf(line, code) == Added
      ensures Inked(LineAfter(line, code).rows) <==> !LosesInkAt(line, code)
    {
      hide Joined, AllInRange, AmountFor, LookupGlyph, Loses;
      JoinedKeepsInk(FitOf(line, code), SidesFor(line, code), charheight, |line.rows[0]|);
    }

    /** One character joins the line, or does not fit. */
    method AddChar(codepoint: int) returns (outcome: Outcome)
      requires Font() && Valid()
      modifies this
      ensures Valid() && currchar == LookupGlyph(codepoint) && currcharwidth == |currchar[0]|
      ensures previouscharwidth == old(currcharwidth)
      ensures var line := Line(old(outputline), old(currcharwidth));
              && outcome == OutcomeOf(line, codepoint)
              && (if outcome == Added then Line(outputline, currcharwidth) == LineAfter(line, codepoint)
                  else outputline == line.rows)
              && (Even(line.rows) && Even(currchar) ==> outcome != RowTooShort && Even(outputline))
              && (outcome == Added && Inked(line.rows) && Inked(currchar) ==>
                    (Inked(outputline) <==> !LosesInkAt(line, codepoint)))
    {
      hide Joined, AllInRange, Even, Inked, Loses, AmountFor, LookupGlyph;
      ghost var line := Line(outputline, currcharwidth);
      currchar := LookupGlyph(codepoint);
      previouscharwidth := currcharwidth;
      currcharwidth := |currchar[0]|;
      var smushamount := ClampedSmushamt();
      if Even(line.rows) && Even(currchar) {
        StaysEven(line, codepoint);
      }
      if outlinelen + currcharwidth - smushamount > outlinelenlimit {
        return Full;
      }
      var rows := OverlapRows(smushamount);
      if rows.None? {
        return RowTooShort;
      }
      if Inked(line.rows) && Inked(currchar) {
        KeepsInk(line, codepoint);
      }
      JoinedLength(Current(), CurrentSides(), charheight, smushamount);
      outputline := rows.value;
      outlinelen := |outputline[0]|;
      outcome := Added;
    }

    // ----- Whole texts -----

    /** A line before its first character. */
    ghost predicate Blank()
      reads this
    {
      Valid() && currcharwidth == 0 && outputline == seq(charheight, i => "")
    }

    /** The line that characters make when they join one by one. */
    function LineOf(codes: seq<int>): (line: Line)
      requires Font()
      ensures |line.rows| == charheight
      decreases |codes|
    {
      if codes == [] then Line(seq(charheight, i => ""), 0)
      else LineAfter(LineOf(codes[..|codes| - 1]), codes[|codes| - 1])
    }

    /** Each of the characters joins the line of those before it. */
    ghost predicate Fits(codes: seq<int>)
      requires Font()
    {
      forall n | 0 <= n < |codes| :: OutcomeOf(LineOf(codes[..n]), codes[n]) == Added
    }

    /** The line is free of NUL at every stage. */
    ghost predicate InkedThroughout(codes: seq<int>)
      requires Font()
    {
      forall n | 0 <= n <= |codes| :: Inked(LineOf(codes[..n]).rows)
    }

    /** None of the characters makes the line of those before it lose ink. */
    ghost predicate NothingLost(codes: seq<int>)
      requires Font()
    {
      forall n | 0 <= n < |codes| :: !LosesInkAt(LineOf(codes[..n]), codes[n])
    }

    /** The characters of a text laid side by side, in one row. */
    function Laid(codes: seq<int>, row: nat): string
      requires Font() && row < charheight
      decreases |codes|
    {
      if codes == [] then ""
      else
        var earlier, last := Laid(codes[..|codes| - 1], row), LookupGlyph(codes[|codes| - 1])[row];
        if right2left != 0 then last + earlier else earlier + last
    }

    /** Two characters side by side, in the direction of the font; the font's code 0 stands in for a character it
        does not have. */
    lemma LaidInDirection(a: int, b: int, row: nat)
      requires Font() && row < charheight && a in glyphs && 0 in glyphs && b !in glyphs
      ensures Laid([a], row) == glyphs[a][row]
      ensures right2left == 0 ==> Laid([a, b], row) == glyphs[a][row] + glyphs[0][row]
      ensures right2left != 0 ==> Laid([a, b], row) == glyphs[0][row] + glyphs[a][row]
      ensures FitOf(Line(seq(charheight, i => ""), 0), a).right2left <==> right2left == 1
    {
      assert [a, b][..1] == [a] && [a][..0] == [];
    }

    /** Universal smushing of these characters finds something to show in every column. */
    ghost predicate AlwaysSmushes(codes: seq<int>)
      requires Font()
    {
      layout.smush && Universal(layout) && InkedFont() && forall c | c in codes :: |LookupGlyph(c)[0]| >= 2
    }

    lemma {:induction false} EvenThroughout(codes: seq<int>)
      requires Font() && EvenFont()
      ensures Even(LineOf(codes).rows)
      decreases |codes|
    {
      if codes != [] {
        var earlier, last := codes[..|codes| - 1], codes[|codes| - 1];
        EvenThroughout(earlier);
        hide Even;
        StaysEven(LineOf(earlier), last);
      }
    }

    /** The characters before the last one have the stages of all, but for the last. */
    lemma Stages(codes: seq<int>)
      requires Font() && codes != []
      ensures var earlier, last := codes[..|codes| - 1], codes[|codes| - 1];
              && (Fits(codes) <==> Fits(earlier) && OutcomeOf(LineOf(earlier), last) == Added)
              && (InkedThroughout(codes) <==> InkedThroughout(earlier) && Inked(LineOf(codes).rows))
              && (NothingLost(codes) <==> NothingLost(earlier) && !LosesInkAt(LineOf(earlier), last))
    {
      hide LineOf, OutcomeOf, LosesInkAt, Inked;
      var earlier := codes[..|codes| - 1];
      assert codes[..|codes|] == codes;
      assert forall n | 0 <= n < |codes| :: earlier[..n] == codes[..n];
      assert forall n | 0 <= n < |earlier| :: earlier[n] == codes[n];
    }

    /** In a font free of NUL, the line is free of NUL at every stage exactly when no character makes it lose
        ink. */
    lemma {:induction false} InkThroughout(codes: seq<int>)
      requires Font() && InkedFont() && Fits(codes)
      ensures InkedThroughout(codes) <==> NothingLost(codes)
      ensures InkedThroughout(codes) ==> Inked(LineOf(codes).rows)
      decreases |codes|
    {
      if codes != [] {
        var earlier, last := codes[..|codes| - 1], codes[|codes| - 1];
        Stages(codes);
        InkThroughout(earlier);
        hide Inked, InkedFont, LosesInkAt, OutcomeOf, InkedThroughout, NothingLost, Fits;
        if InkedThroughout(earlier) {
          KeepsInk(LineOf(earlier), last);
        }
      } else {
        assert codes[..0] == codes;
      }
    }

    lemma {:induction false} SmushedThroughout(codes: seq<int>)
      requires Font() && Fits(codes) && AlwaysSmushes(codes)
      ensures NothingLost(codes)
      ensures codes == [] || LineOf(codes).lastWidth >= 2
      decreases |codes|
    {
      if codes != [] {
        var earlier, last := codes[..|codes| - 1], codes[|codes| - 1];
        assert AlwaysSmushes(earlier) && last in codes;
        Stages(codes);
        SmushedThroughout(earlier);
        InkThroughout(earlier);
        hide Inked, Loses, InkedFont, AmountFor;
        var line := LineOf(earlier);
        NeverLoses(FitOf(line, last), SidesFor(line, last), charheight, AmountOf(line, last));
      }
    }

    lemma {:induction false} LaidThroughout(codes: seq<int>)
      requires Font() && Fits(codes) && !layout.smush && !layout.kern
      ensures forall r | 0 <= r < charheight :: LineOf(codes).rows[r] == Laid(codes, r)
      decreases |codes|
    {
      if codes != [] {
        var earlier, last := codes[..|codes| - 1], codes[|codes| - 1];
        Stages(codes);
        LaidThroughout(earlier);
        hide Joined, AmountFor, AllInRange;
        var line := LineOf(earlier);
        SideBySide(FitOf(line, last), SidesFor(line, last), charheight, |line.rows[0]|);
      }
    }

    /** A whole text: its characters join the line one by one, until one of them does not fit. The line is within
        the limit, and even in an even font. In a font free of NUL it is free of NUL at every stage exactly when
        no character made it lose ink; universal smushing of characters two or more columns wide loses none.
        Without kerning and smushing the line is the characters side by side. */
    method Render(text: seq<int>, isSpace: int -> bool) returns (outcome: Outcome, ghost typeset: seq<int>)
      requires Font() && Blank()
      modifies this
      ensures Valid() && typeset <= Codes(text, isSpace) && outputline == LineOf(typeset).rows && Fits(typeset)
      ensures if typeset == Codes(text, isSpace) then outcome == Added
              else outcome == OutcomeOf(LineOf(typeset), Codes(text, isSpace)[|typeset|]) != Added
      ensures EvenFont() ==> outcome != RowTooShort && Even(outputline)
      ensures InkedFont() ==> (InkedThroughout(typeset) <==> NothingLost(typeset))
      ensures InkedFont() && NothingLost(typeset) ==> Inked(outputline)
      ensures AlwaysSmushes(Codes(text, isSpace)) ==> NothingLost(typeset)
      ensures !layout.smush && !layout.kern ==> forall r | 0 <= r < charheight :: outputline[r] == Laid(typeset, r)
    {
      hide Fits, LineAfter, OutcomeOf, Codes, Even, EvenFont, Inked, InkedFont, LookupGlyph, LosesInkAt;
      outcome, typeset := Added, [];
      ghost var codes := Codes(text, isSpace);
      NoCodes(text, isSpace);
      for i := 0 to |text|
        invariant Valid() && typeset == Codes(text[..i], isSpace) <= codes && outcome == Added
        invariant Line(outputline, currcharwidth) == LineOf(typeset) && Fits(typeset)
      {
        CodesOneMore(text, isSpace, i);
        CodesOfPrefix(text, isSpace, i + 1);
        var code := Code(text[i], isSpace);
        if code.Some? {
          assert codes[|typeset|] == code.value;
          outcome := AddChar(code.value);
          if outcome != Added {
            break;
          }
          OneMoreFits(typeset, code.value);
          typeset := typeset + [code.value];
        }
      }
      assert text[..|text|] == text;
      Throughout(typeset, codes);
      if EvenFont() && outcome != Added {
        StaysEven(LineOf(typeset), codes[|typeset|]);
      }
    }

    lemma NoCodes(text: seq<int>, isSpace: int -> bool)
      requires Font()
      ensures Codes(text[..0], isSpace) == [] && Fits([])
    {
    }

    lemma OneMoreFits(codes: seq<int>, code: int)
      requires Font() && Fits(codes) && OutcomeOf(LineOf(codes), code) == Added
      ensures Fits(codes + [code]) && LineOf(codes + [code]) == LineAfter(LineOf(codes), code)
    {
      assert (codes + [code])[..|codes|] == codes;
      Stages(codes + [code]);
    }

    /** What holds of every line. */
    lemma Throughout(typeset: seq<int>, codes: seq<int>)
      requires Font() && Fits(typeset) && typeset <= codes
      ensures EvenFont() ==> Even(LineOf(typeset).rows)
      ensures InkedFont() ==> (InkedThroughout(typeset) <==> NothingLost(typeset))
      ensures InkedFont() && NothingLost(typeset) ==> Inked(LineOf(typeset).rows)
      ensures AlwaysSmushes(codes) ==> NothingLost(typeset)
      ensures !layout.smush && !layout.kern ==>
                forall r | 0 <= r < charheight :: LineOf(typeset).rows[r] == Laid(typeset, r)
    {
      hide Fits, InkedThroughout, NothingLost, Even, EvenFont, InkedFont, LineOf, Laid;
      if EvenFont() {
        EvenThroughout(typeset);
      }
      if InkedFont() {
        InkThroughout(typeset);
      }
      if AlwaysSmushes(codes) {
        SmushedThroughout(typeset);
      }
      if !layout.smush && !layout.kern {
        LaidThroughout(typeset);
      }
    }
  }

  ghost predicate ThreeGlyphs(s: FigletState) {
    && s.charheight == 1 && s.right2left == 0 && s.hardblank == '$' && s.outlinelenlimit == 499
    && s.layout.smush && Universal(s.layout) && s.glyphs == map[65 := ["|"], 66 := ["|  "], 67 := ["xy "]]
  }

  /** Why the stages matter: a NUL can be smushed over later. Behind a character one column wide, the second
      character loses the first one's ink, and the third one covers the NUL. */
  lemma LossIsCovered(s: FigletState)
    requires ThreeGlyphs(s)
    ensures s.Font() && s.LineOf([65, 66]).rows == [[NUL, ' ', ' ']] && s.LineOf([65, 66, 67]).rows == ["xy "]
    ensures !s.NothingLost([65, 66, 67])
  {
    FirstOfThree(s);
    SecondOfThree(s);
    ThirdOfThree(s);
    var codes := [65, 66, 67];
    assert codes[..1] == [65] && codes[..2] == [65, 66] && [65, 66][..1] == [65];
    assert s.LosesInkAt(s.LineOf(codes[..1]), codes[1]);
  }

  lemma FirstOfThree(s: FigletState)
    requires ThreeGlyphs(s)
    ensures s.Font() && s.LineOf([65]) == Line(["|"], 1)
  {
    var blank := s.LineOf([]);
    assert blank.rows == [""] && s.LookupGlyph(65) == ["|"] && s.AmountOf(blank, 65) == 0;
    assert s.SidesFor(blank, 65) == Sides([""], 0, ["|"]);
    assert Overlapped(s.FitOf(blank, 65), "", 0, "|", 0) == "|";
    assert [65][..0] == [] && s.LineOf([65]) == s.LineAfter(blank, 65);
    assert s.LineAfter(blank, 65).rows == ["|"];
  }

  lemma SecondOfThree(s: FigletState)
    requires ThreeGlyphs(s)
    ensures var line := Line(["|"], 1);
            s.LosesInkAt(line, 66) && s.LineAfter(line, 66) == Line([[NUL, ' ', ' ']], 3)
  {
    var line := Line(["|"], 1);
    var f := s.FitOf(line, 66);
    assert s.SidesFor(line, 66) == Sides(["|"], 1, ["|  "]);
    assert RowAmount(f, "|", 1, "|  ") == 1 && MaxSmush(f, s.SidesFor(line, 66), 0) == 3;
    assert MaxSmush(f, s.SidesFor(line, 66), 1) == 1 && s.AmountOf(line, 66) == 1;
    assert LosesInk(f, "|", 1, "|  ", 1);
    assert SmushedInto(f, "|", 0, "|  ", 0) == "|" && SmushedInto(f, "|", 0, "|  ", 1) == [NUL];
    assert Overlapped(f, "|", 1, "|  ", 1) == [NUL, ' ', ' '];
    assert s.LineAfter(line, 66).rows == [[NUL, ' ', ' ']];
  }

  lemma ThirdOfThree(s: FigletState)
    requires ThreeGlyphs(s)
    ensures var line := Line([[NUL, ' ', ' ']], 3); s.LineAfter(line, 67) == Line(["xy "], 3)
  {
    hide RowAmount, Overlapped;
    var row, line := [NUL, ' ', ' '], Line([[NUL, ' ', ' ']], 3);
    var f := s.FitOf(line, 67);
    ThirdRow(f);
    assert s.SidesFor(line, 67) == Sides([row], 3, ["xy "]);
    assert MaxSmush(f, s.SidesFor(line, 67), 0) == 3;
    assert MaxSmush(f, s.SidesFor(line, 67), 1) == 3 && s.AmountOf(line, 67) == 3;
    assert s.LineAfter(line, 67).rows == ["xy "];
  }

  lemma ThirdRow(f: Fit)
    requires f.layout.smush && Universal(f.layout) && f.hardblank == '$' && !f.right2left
    requires f.previousWidth == f.currentWidth == 3
    ensures RowAmount(f, [NUL, ' ', ' '], 3, "xy ") == 3 && Overlapped(f, [NUL, ' ', ' '], 3, "xy ", 3) == "xy "
  {
    var row := [NUL, ' ', ' '];
    assert row[..2] == [NUL, ' '] && row[..2][..1] == [NUL] && EndOf(row) == 0;
    assert SmushedInto(f, row, 0, "xy ", 3) == "xy ";
  }

  /** Without kerning and smushing characters stand side by side. */
  lemma SideBySide(f: Fit, s: Sides, rows: nat, linelen: nat)
    requires rows <= |s.lefts| && rows <= |s.rights| && !f.layout.smush && !f.layout.kern
    ensures AmountFor(f, s, rows, linelen) == 0 && AllInRange(s, rows, 0)
    ensures forall r | 0 <= r < rows :: Joined(f, s, rows, 0)[r] == s.lefts[r] + s.rights[r]
  {
  }

  lemma NeverLoses(f: Fit, s: Sides, rows: nat, amount: nat)
    requires rows <= |s.lefts| && rows <= |s.rights| && Inked(s.lefts) && Inked(s.rights)
    requires f.layout.smush && Universal(f.layout) && (amount > 0 ==> f.previousWidth >= 2 && f.currentWidth >= 2)
    ensures !Loses(f, s, rows, amount)
  {
    hide Smush;
    forall r | 0 <= r < rows && amount > 0 && EndsInColumnZero(s.lefts[r]) && s.rights[r] != ""
      ensures Smush(f, s.lefts[r][0], s.rights[r][0]) != NUL
    {
      assert s.rights[r][0] in s.rights[r];
      UniversalAlwaysSmushes(f, s.lefts[r][0], s.rights[r][0]);
    }
  }

  lemma CodesOneMore(text: seq<int>, isSpace: int -> bool, n: nat)
    requires n < |text|
    ensures Codes(text[..n + 1], isSpace) ==
            Codes(text[..n], isSpace) + if Code(text[n], isSpace).Some? then [Code(text[n], isSpace).value] else []
  {
    assert text[..n + 1][..n] == text[..n];
  }

  lemma {:induction false} CodesOfPrefix(text: seq<int>, isSpace: int -> bool, n: nat)
    requires n <= |text|
    ensures Codes(text[..n], isSpace) <= Codes(text, isSpace) && Codes(text[..0], isSpace) == []
    decreases |text| - n
  {
    if n < |text| {
      CodesOneMore(text, isSpace, n);
      CodesOfPrefix(text, isSpace, n + 1);
    } else {
      assert text[..n] == text;
    }
  }

  /** The code a character is typeset as, if it is: white space becomes a blank or a line feed, other control
      characters are passed over. */
  function Code(c: int, isSpace: int -> bool): Option<int> {
    var code := if isSpace(c) then if c == 9 || c == 32 then 32 else 10 else c;
    if (0 < code < 32 && code != 10) || code == 127 then None else Some(code)
  }

  /** Tabs and blanks become a blank, other white space a line feed; of the rest, control characters and DEL are
      passed over and everything else, a line feed and NUL included, is typeset as it is. */
  lemma CodeCases(c: int, isSpace: int -> bool)
    ensures isSpace(c) && (c == 9 || c == 32) ==> Code(c, isSpace) == Some(32)
    ensures isSpace(c) && c != 9 && c != 32 ==> Code(c, isSpace) == Some(10)
    ensures !isSpace(c) && ((1 <= c <= 9) || (11 <= c <= 31) || c == 127) ==> Code(c, isSpace) == None
    ensures !isSpace(c) && (c <= 0 || c == 10 || 32 <= c <= 126 || c >= 128) ==> Code(c, isSpace) == Some(c)
  {
  }

  function Codes(text: seq<int>, isSpace: int -> bool): seq<int>
    decreases |text|
  {
    if text == [] then []
    else
      var last := Code(text[|text| - 1], isSpace);
      Codes(text[..|text| - 1], isSpace) + if last.Some? then [last.value] else []
  }

  lemma JoinedLength(f: Fit, s: Sides, rows: nat, amount: nat)
    requires 1 <= rows <= |s.lefts| && rows <= |s.rights| && AllInRange(s, rows, amount)
    ensures var line := Joined(f, s, rows, amount);
            |line| == rows && |line[0]| == |s.lefts[0]| + |s.rights[0]| - amount
  {
  }
}
