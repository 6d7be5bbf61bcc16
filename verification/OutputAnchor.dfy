/** Output anchors: every anchor of a capped buffer moves when lines are removed at the head. Instead of walking
    the anchors, one shared counter advances and each anchor derives its index from it, modulo 2^61. */
module OutputAnchor {
  const TWO61: nat := 0x2000_0000_0000_0000
  const TWO62: nat := 0x4000_0000_0000_0000
  const TWO63: nat := 0x8000_0000_0000_0000
  const TWO64: nat := 0x1_0000_0000_0000_0000
  const INT_MAX: nat := 0x7fff_ffff

  datatype Presentation = Presentation(bufferIndex: int, activeIncoming: bool, hidden: bool)

  function Bit(set_: bool, weight: nat): nat {
    if set_ then weight else 0
  }

  /** One word: 61 bits of shifted index, then the flags. Its parts do not overlap, so or-ing them
      together is adding them up, and masking is taking remainders and quotients. */
  function Pack(shiftedIndex: nat, valid: bool, activeIncoming: bool, hidden: bool): nat {
    shiftedIndex + Bit(valid, TWO63) + Bit(activeIncoming, TWO61) + Bit(hidden, TWO62)
  }

  function ShiftedOf(word: nat): nat {
    word % TWO61
  }

  predicate ActiveIncomingOf(word: nat) {
    word / TWO61 % 2 == 1
  }

  predicate HiddenOf(word: nat) {
    word / TWO62 % 2 == 1
  }

  predicate ValidOf(word: nat) {
    word / TWO63 % 2 == 1
  }

  lemma PackRoundTrip(shiftedIndex: nat, valid: bool, activeIncoming: bool, hidden: bool)
    requires shiftedIndex < TWO61
    ensures var word := Pack(shiftedIndex, valid, activeIncoming, hidden);
            && word < TWO64 && ShiftedOf(word) == shiftedIndex && ValidOf(word) == valid
            && ActiveIncomingOf(word) == activeIncoming && HiddenOf(word) == hidden
  {
  }

  function Shift(headRemovalCount: nat, bufferIndex: int): (shifted: nat)
    ensures shifted < TWO61
  {
    if bufferIndex <= 0 then 0 else (headRemovalCount + bufferIndex) % TWO61
  }

  /** Unsigned subtraction, masked to 61 bits. */
  function Distance(shiftedIndex: nat, headRemovalCount: nat): (distance: nat)
    ensures distance < TWO61
  {
    (shiftedIndex - headRemovalCount % TWO61) % TWO61
  }

  function Unpack(word: nat, headRemovalCount: nat): Presentation {
    var bufferIndex := Distance(ShiftedOf(word), headRemovalCount);
    Presentation(if ValidOf(word) && bufferIndex <= INT_MAX then bufferIndex else 0, ActiveIncomingOf(word),
                 HiddenOf(word))
  }

  // ----- The eager walk -----

  /** Removing lines at the head moves an anchor towards zero. */
  function Walked(bufferIndex: int, removed: nat): int {
    if bufferIndex <= removed then 0 else bufferIndex - removed
  }

  function Total(removals: seq<nat>): nat {
    if removals == [] then 0 else removals[0] + Total(removals[1..])
  }

  function WalkedAll(bufferIndex: int, removals: seq<nat>): int
    decreases |removals|
  {
    if removals == [] then bufferIndex else WalkedAll(Walked(bufferIndex, removals[0]), removals[1..])
  }

  /** Walking removal by removal is walking by their total. */
  lemma {:induction false} WalkedByTotal(bufferIndex: int, removals: seq<nat>)
    requires bufferIndex >= 0
    ensures WalkedAll(bufferIndex, removals) == Walked(bufferIndex, Total(removals))
    decreases |removals|
  {
    if removals != [] {
      WalkedByTotal(Walked(bufferIndex, removals[0]), removals[1..]);
    }
  }

  lemma SameRemainder(x: int, y: int, k: int)
    requires x == y + TWO61 * k
    ensures x % TWO61 == y % TWO61
  {
  }

  /** The counter modulo 2^61 knows the distance to a stored index, even if the 64-bit counter wraps. */
  lemma DistanceSinceStore(start: nat, bufferIndex: nat, removed: nat)
    requires bufferIndex > 0
    ensures Distance(Shift(start % TWO64, bufferIndex), (start + removed) % TWO64) == (bufferIndex - removed) % TWO61
  {
    var before, now := start % TWO64, (start + removed) % TWO64;
    var a, b, c, d := start / TWO64, (start + removed) / TWO64, (before + bufferIndex) / TWO61, now / TWO61;
    SameRemainder((before + bufferIndex) % TWO61 - now % TWO61, bufferIndex - removed, 8 * b - 8 * a - c + d);
  }

  /** The removals since a store have not gone so far past the stored index that the distance comes round to a
      small index again. */
  predicate Derivable(bufferIndex: int, removed: nat) {
    || bufferIndex <= 0 || removed <= bufferIndex || (bufferIndex - removed) % TWO61 == 0
    || (bufferIndex - removed) % TWO61 > INT_MAX
  }

  /** That takes more than 2^61 - 2^31 lines. */
  lemma DerivableFor(bufferIndex: int, removed: nat)
    requires bufferIndex <= INT_MAX && removed <= TWO61 - 0x8000_0000
    ensures Derivable(bufferIndex, removed)
  {
    if 0 < bufferIndex < removed {
      SameRemainder(bufferIndex - removed, bufferIndex - removed + TWO61, -1);
    }
  }

  /** Deriving an index is walking it, exactly as long as it is derivable. */
  lemma DerivedIsWalked(start: nat, bufferIndex: int, removed: nat, activeIncoming: bool, hidden: bool)
    requires bufferIndex <= INT_MAX
    ensures var word := Pack(Shift(start % TWO64, bufferIndex), bufferIndex > 0, activeIncoming, hidden);
            Unpack(word, (start + removed) % TWO64) ==
              Presentation(Walked(if bufferIndex < 0 then 0 else bufferIndex, removed), activeIncoming, hidden)
            <==> Derivable(bufferIndex, removed)
  {
    PackRoundTrip(Shift(start % TWO64, bufferIndex), bufferIndex > 0, activeIncoming, hidden);
    if bufferIndex > 0 {
      DistanceSinceStore(start, bufferIndex, removed);
      if removed <= bufferIndex {
        SameRemainder(bufferIndex - removed, bufferIndex - removed, 0);
      }
    }
  }

  // ----- The state -----

  /** The runtime's cumulative 64-bit count of lines removed at the head. */
  class HeadRemovalCount {
    var count: nat
    ghost var start: nat
    ghost var removed: nat

    ghost predicate Valid()
      reads this
    {
      count == (start + removed) % TWO64
    }

    constructor (start: nat)
      requires start < TWO64
      ensures Valid() && this.start == start && removed == 0
    {
      count, this.start, removed := start, start, 0;
    }

    method Remove(lines: nat)
      requires Valid()
      modifies this
      ensures Valid() && start == old(start) && removed == old(removed) + lines
    {
      WrapAround(start + removed, lines);
      count := (count + lines) % TWO64;
      removed := removed + lines;
    }

    lemma WrapAround(a: nat, b: nat)
      ensures (a % TWO64 + b) % TWO64 == (a + b) % TWO64
    {
      assert a == a / TWO64 * TWO64 + a % TWO64;
    }
  }

  /** One anchor: a packed word, and the counter once it is bound. The ghosts say what was stored last and
      how many lines had been removed by then. */
  class LuaCallbackOutputAnchorState {
    var headRemovalCount: HeadRemovalCount?
    var word: nat
    ghost var stored: Presentation
    ghost var storedAt: nat

    ghost predicate Valid()
      reads this, headRemovalCount
    {
      && 0 <= stored.bufferIndex <= INT_MAX
      && (headRemovalCount != null ==> headRemovalCount.Valid() && storedAt <= headRemovalCount.removed)
      && word == Pack(Shift(CountAt(), stored.bufferIndex), stored.bufferIndex > 0, stored.activeIncoming,
                      stored.hidden)
    }

    /** The counter as it stood when the presentation was stored. */
    ghost function CountAt(): nat
      reads this, headRemovalCount
    {
      if headRemovalCount == null then 0 else (headRemovalCount.start + storedAt) % TWO64
    }

    ghost function RemovedSince(): int
      reads this, headRemovalCount
    {
      if headRemovalCount == null then 0 else headRemovalCount.removed - storedAt
    }

    /** What an eager walk would have made of the stored presentation. */
    ghost function Eager(): Presentation
      requires RemovedSince() >= 0
      reads this, headRemovalCount
    {
      Presentation(Walked(stored.bufferIndex, RemovedSince()), stored.activeIncoming, stored.hidden)
    }

    function CurrentHeadRemovalCount(): nat
      reads this, headRemovalCount
    {
      if headRemovalCount == null then 0 else headRemovalCount.count
    }

    constructor (bufferIndex: int, activeIncoming: bool, hidden: bool, headRemovalCount: HeadRemovalCount?)
      requires bufferIndex <= INT_MAX && (headRemovalCount != null ==> headRemovalCount.Valid())
      ensures Valid() && this.headRemovalCount == headRemovalCount && RemovedSince() == 0
      ensures stored.bufferIndex == Floor(bufferIndex)
      ensures Eager() == Presentation(if bufferIndex < 0 then 0 else bufferIndex, activeIncoming, hidden)
    {
      this.headRemovalCount := headRemovalCount;
      word := Pack(Shift(if headRemovalCount == null then 0 else headRemovalCount.count, bufferIndex),
                   bufferIndex > 0, activeIncoming, hidden);
      stored := Presentation(if bufferIndex < 0 then 0 else bufferIndex, activeIncoming, hidden);
      storedAt := if headRemovalCount == null then 0 else headRemovalCount.removed;
    }

    /** Reading derives what an eager walk would have left, exactly as long as that is derivable; both flags
        always survive. */
    method GetPresentation() returns (p: Presentation)
      requires Valid()
      ensures p.activeIncoming == stored.activeIncoming && p.hidden == stored.hidden
      ensures p == Eager() <==> Derivable(stored.bufferIndex, RemovedSince())
    {
      hide Pack, Shift, ShiftedOf, Distance, Derivable, ActiveIncomingOf, HiddenOf, ValidOf;
      p := Unpack(word, CurrentHeadRemovalCount());
      PackRoundTrip(Shift(CountAt(), stored.bufferIndex), stored.bufferIndex > 0, stored.activeIncoming, stored.hidden);
      if headRemovalCount == null {
        DerivedIsWalked(0, stored.bufferIndex, 0, stored.activeIncoming, stored.hidden);
      } else {
        DerivedIsWalked(headRemovalCount.start + storedAt, stored.bufferIndex, RemovedSince(), stored.activeIncoming,
                        stored.hidden);
      }
    }

    method StorePresentation(bufferIndex: int, activeIncoming: bool, hidden: bool)
      requires Valid() && bufferIndex <= INT_MAX
      modifies this
      ensures Valid() && headRemovalCount == old(headRemovalCount) && RemovedSince() == 0
      ensures stored.bufferIndex == Floor(bufferIndex)
      ensures Eager() == Presentation(if bufferIndex < 0 then 0 else bufferIndex, activeIncoming, hidden)
    {
      word := Pack(Shift(CurrentHeadRemovalCount(), bufferIndex), bufferIndex > 0, activeIncoming, hidden);
      stored := Presentation(if bufferIndex < 0 then 0 else bufferIndex, activeIncoming, hidden);
      storedAt := if headRemovalCount == null then 0 else headRemovalCount.removed;
    }

    /** Only the index is replaced; the flags are taken over from the current word. */
    method StoreBufferIndex(bufferIndex: int)
      requires Valid() && bufferIndex <= INT_MAX
      modifies this
      ensures Valid() && headRemovalCount == old(headRemovalCount) && RemovedSince() == 0
      ensures stored.bufferIndex == Floor(bufferIndex)
      ensures Eager() == Presentation(if bufferIndex < 0 then 0 else bufferIndex, old(stored).activeIncoming,
                                      old(stored).hidden)
    {
      hide Pack, ActiveIncomingOf, HiddenOf;
      PackRoundTrip(Shift(CountAt(), stored.bufferIndex), stored.bufferIndex > 0, stored.activeIncoming, stored.hidden);
      word := Pack(Shift(CurrentHeadRemovalCount(), bufferIndex), bufferIndex > 0, ActiveIncomingOf(word),
                   HiddenOf(word));
      stored := Presentation(if bufferIndex < 0 then 0 else bufferIndex, stored.activeIncoming, stored.hidden);
      storedAt := if headRemovalCount == null then 0 else headRemovalCount.removed;
    }

    method ClearPresentation()
      requires Valid()
      modifies this
      ensures Valid() && headRemovalCount == old(headRemovalCount) && RemovedSince() == 0
      ensures stored.bufferIndex == 0 && Eager() == Presentation(0, false, false)
    {
      word := 0;
      stored := Presentation(0, false, false);
      storedAt := if headRemovalCount == null then 0 else headRemovalCount.removed;
    }

    /** Binding an anchor to the counter changes nothing a reader sees. */
    method BindHeadRemovalCount(counter: HeadRemovalCount?)
      requires Valid() && (counter != null ==> counter.Valid())
      requires counter != null && headRemovalCount != null ==> counter == headRemovalCount
      modifies this
      ensures Valid() && Eager() == old(Eager()) && RemovedSince() == old(RemovedSince()) && stored == old(stored)
      ensures headRemovalCount == if old(headRemovalCount) == null then counter else old(headRemovalCount)
    {
      if counter == null || headRemovalCount != null {
        return;
      }
      var current := GetPresentation();
      headRemovalCount := counter;
      storedAt := counter.removed;
      word := Pack(Shift(CurrentHeadRemovalCount(), current.bufferIndex), current.bufferIndex > 0,
                   current.activeIncoming, current.hidden);
      stored := current;
    }
  }

  // ----- Runs over many anchors that share one counter -----

  datatype Event = Remove(lines: nat) | Store(anchor: nat, bufferIndex: int, activeIncoming: bool, hidden: bool)
                 | StoreIndex(anchor: nat, bufferIndex: int) | Clear(anchor: nat) | Bind(anchor: nat)

  /** An anchor without counter: what it presents, whether removals walk it yet, the index it was last stored
      with and how many lines have gone since. */
  datatype Walker = Walker(shown: Presentation, bound: bool, stored: int, since: nat) {
    function After(lines: nat): Walker {
      if bound then this.(shown := shown.(bufferIndex := Walked(shown.bufferIndex, lines)), since := since + lines)
      else this
    }

    function Showing(p: Presentation): Walker {
      this.(shown := p, stored := p.bufferIndex, since := 0)
    }

    function Touched(e: Event): Walker {
      match e
      case Remove(_) => this
      case Store(_, bufferIndex, activeIncoming, hidden) =>
        Showing(Presentation(Floor(bufferIndex), activeIncoming, hidden))
      case StoreIndex(_, bufferIndex) => Showing(shown.(bufferIndex := Floor(bufferIndex)))
      case Clear(_) => Showing(Presentation(0, false, false))
      case Bind(_) => this.(bound := true)
    }
  }

  predicate Applicable(events: seq<Event>, anchors: nat) {
    forall e | e in events && !e.Remove? ::
      e.anchor < anchors && (e.Store? || e.StoreIndex? ==> e.bufferIndex <= INT_MAX)
  }

  function Floor(bufferIndex: int): int {
    if bufferIndex < 0 then 0 else bufferIndex
  }

  /** The same run on plain presentations, where each removal walks every anchor bound before it. */
  ghost function EagerStep(eager: seq<Walker>, e: Event): (next: seq<Walker>)
    requires Applicable([e], |eager|)
    ensures |next| == |eager|
  {
    assert e in [e];
    if e.Remove? then seq(|eager|, i requires 0 <= i < |eager| => eager[i].After(e.lines))
    else eager[e.anchor := eager[e.anchor].Touched(e)]
  }

  ghost function EagerRun(eager: seq<Walker>, events: seq<Event>): (next: seq<Walker>)
    requires Applicable(events, |eager|)
    ensures |next| == |eager|
    decreases |events|
  {
    if events == [] then eager
    else
      var last := |events| - 1;
      EagerStep(EagerRun(eager, events[..last]), events[last])
  }

  /** The anchors stand for the eager presentations, and the bound ones share the counter. */
  ghost predicate StandFor(anchors: seq<LuaCallbackOutputAnchorState>, counter: HeadRemovalCount, eager: seq<Walker>)
    reads anchors, counter
  {
    && |anchors| == |eager| && counter.Valid()
    && (forall i, j | 0 <= i < j < |anchors| :: anchors[i] != anchors[j])
    && (forall i | 0 <= i < |anchors| :: Bears(anchors[i], counter, eager[i]))
  }

  ghost predicate Bears(anchor: LuaCallbackOutputAnchorState, counter: HeadRemovalCount, walker: Walker)
    reads anchor, counter
  {
    && anchor.headRemovalCount == (if walker.bound then counter else null)
    && anchor.Valid() && anchor.Eager() == walker.shown
    && anchor.stored.bufferIndex == walker.stored && anchor.RemovedSince() == walker.since
  }

  method Touch(anchor: LuaCallbackOutputAnchorState, counter: HeadRemovalCount, e: Event, ghost walker: Walker)
    requires Bears(anchor, counter, walker) && counter.Valid()
    requires !e.Remove? && (e.Store? || e.StoreIndex? ==> e.bufferIndex <= INT_MAX)
    modifies anchor
    ensures Bears(anchor, counter, walker.Touched(e))
  {
    hide Pack, Shift;
    match e
    case Store(_, bufferIndex, activeIncoming, hidden) =>
      anchor.StorePresentation(bufferIndex, activeIncoming, hidden);
    case StoreIndex(_, bufferIndex) => anchor.StoreBufferIndex(bufferIndex);
    case Clear(_) => anchor.ClearPresentation();
    case Bind(_) => anchor.BindHeadRemovalCount(counter);
  }

  method Happen(anchors: seq<LuaCallbackOutputAnchorState>, counter: HeadRemovalCount, e: Event,
                ghost eager: seq<Walker>)
    requires StandFor(anchors, counter, eager) && Applicable([e], |anchors|)
    modifies anchors, counter
    ensures StandFor(anchors, counter, EagerStep(eager, e))
  {
    hide Bears;
    assert e in [e];
    if e.Remove? {
      RemoveLines(anchors, counter, e.lines, eager);
    } else {
      Touch(anchors[e.anchor], counter, e, eager[e.anchor]);
    }
  }

  method RemoveLines(anchors: seq<LuaCallbackOutputAnchorState>, counter: HeadRemovalCount, lines: nat,
                     ghost eager: seq<Walker>)
    requires StandFor(anchors, counter, eager)
    modifies counter
    ensures StandFor(anchors, counter, seq(|eager|, i requires 0 <= i < |eager| => eager[i].After(lines)))
  {
    hide Pack, Shift;
    counter.Remove(lines);
    forall i | 0 <= i < |anchors|
      ensures Bears(anchors[i], counter, eager[i].After(lines))
    {
      assert old(Bears(anchors[i], counter, eager[i]));
    }
  }

  /** Any run of stores, index stores, clears, bindings and removals: an anchor reads as if each removal since
      it was bound had walked it, flags included, exactly as long as that is derivable from the index the run
      stored last and the lines it removed since. */
  method Run(anchors: seq<LuaCallbackOutputAnchorState>, counter: HeadRemovalCount, events: seq<Event>,
             ghost eager: seq<Walker>)
    returns (readings: seq<Presentation>)
    requires StandFor(anchors, counter, eager) && |anchors| == |eager| && Applicable(events, |anchors|)
    modifies anchors, counter
    ensures StandFor(anchors, counter, EagerRun(eager, events)) && |readings| == |anchors|
    ensures forall i | 0 <= i < |readings| ::
              var walker := EagerRun(eager, events)[i];
              readings[i] == walker.shown <==> Derivable(walker.stored, walker.since)
  {
    hide StandFor, EagerStep, Derivable;
    for n := 0 to |events|
      invariant StandFor(anchors, counter, EagerRun(eager, events[..n]))
    {
      assert events[..n + 1][..n] == events[..n];
      assert events[n] in events;
      Happen(anchors, counter, events[n], EagerRun(eager, events[..n]));
    }
    assert events[..|events|] == events;
    readings := ReadAll(anchors, counter, EagerRun(eager, events));
  }

  method ReadAll(anchors: seq<LuaCallbackOutputAnchorState>, counter: HeadRemovalCount, ghost eager: seq<Walker>)
    returns (readings: seq<Presentation>)
    requires StandFor(anchors, counter, eager)
    ensures |readings| == |anchors|
    ensures forall i | 0 <= i < |anchors| ::
              readings[i] == eager[i].shown <==> Derivable(eager[i].stored, eager[i].since)
  {
    hide Pack, Shift, Derivable;
    readings := [];
    for i := 0 to |anchors|
      invariant |readings| == i
      invariant forall k | 0 <= k < i :: readings[k] == eager[k].shown <==> Derivable(eager[k].stored, eager[k].since)
    {
      assert Bears(anchors[i], counter, eager[i]);
      var p := anchors[i].GetPresentation();
      readings := readings + [p];
    }
  }

  /** The lines a run removes. */
  function Removed(events: seq<Event>): nat
    decreases |events|
  {
    if events == [] then 0
    else
      var last := events[|events| - 1];
      Removed(events[..|events| - 1]) + if last.Remove? then last.lines else 0
  }

  /** Short of 2^61 - 2^31 removed lines in all, whatever the run, every anchor is derivable in the end. */
  lemma {:induction false} EnoughRoom(eager: seq<Walker>, events: seq<Event>, i: nat)
    requires Applicable(events, |eager|) && i < |eager|
    requires eager[i].stored <= INT_MAX
    ensures var walker := EagerRun(eager, events)[i];
            && walker.stored <= INT_MAX && walker.since <= eager[i].since + Removed(events)
            && (eager[i].since + Removed(events) <= TWO61 - 0x8000_0000 ==> Derivable(walker.stored, walker.since))
    decreases |events|
  {
    hide Derivable;
    if events != [] {
      var last := |events| - 1;
      EnoughRoom(eager, events[..last], i);
      assert events[last] in events;
    }
    var walker := EagerRun(eager, events)[i];
    if walker.since <= TWO61 - 0x8000_0000 {
      DerivableFor(walker.stored, walker.since);
    }
  }
}
